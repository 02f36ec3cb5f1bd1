// art_node_insert in memory: a new leaf, a leaf that expands, a node that splits inside its
// compressed path, or an insertion below a child.

module ArtInsert {
  import opened Bytes
  import opened Values
  import opened ArtTree
  import opened ArtOps
  import opened ArtLayout
  import opened ArtNode
  import opened ArtHeap

  /** `c` leads to the map `m` with one key set, and is reached by the bytes `p`. */
  ghost predicate HasInserted(c: Ptr, p: seq<Byte>, m: map<seq<Byte>, Value>, key: seq<Byte>, value: Value)
    reads if c.ToNode? then {c.node} else if c.ToLeaf? then {c.leaf} else {}, Foot(c)
  {
    c != Null && ValidPtr(c) && Wf(TreeOf(c), p) && Dict(TreeOf(c)) == m[key := value]
  }

  /** The record of what a node stands for, after its arrays have been brought up to date. */
  ghost method Record(n: Node, t: Tree, R: set<object>)
    requires n.Layout() && Resting(n.kind, |n.kids|) && n.Own() !! R
    requires t.Inner? && t.prefixLen == n.prefixLen && t.stored == n.Stored()
    requires Kids(n.kids, t.kids, R)
    modifies n`tree, n`Repr
    ensures n.Valid() && n.tree == t && n.Repr == R + n.Own()
  {
    hide Kids;
    hide SortedPairs;
    hide Indexed;
    hide Direct;
    n.tree := t;
    n.Repr := R + n.Own();
    assert n.Repr - n.Own() == R;
  }

  /** Giving a node another prefix; children and arrays stay as they are. */
  method SetPrefix(n: Node, plen: nat, bytes: seq<Byte>)
    requires n.Valid() && |bytes| == Min(plen, MAX_PREFIX_LEN)
    modifies n`prefixLen, n`tree, n`Repr, n.prefix
    ensures n.Valid() && n.Repr == old(n.Repr)
    ensures n.tree == Inner(plen, bytes, old(n.tree.kids))
  {
    hide Kids;
    hide SortedPairs;
    hide Indexed;
    hide Direct;
    ghost var R := n.Repr - n.Own();
    assert n.Repr == R + n.Own();
    ghost var ks, cs := n.keys[..], n.children[..];
    ghost var ks1, cs1 := n.keys[..if n.SortedKind() then n.numChildren as int else 0], n.children[..if n.SortedKind() then n.numChildren as int else 0];
    n.prefixLen := plen;
    forall i | 0 <= i < |bytes| {
      n.prefix[i] := bytes[i];
    }
    assert n.keys[..] == ks && n.children[..] == cs;
    assert n.SortedKind() ==> n.keys[..n.numChildren] == ks1 && n.children[..n.numChildren] == cs1;
    Record(n, Inner(plen, bytes, n.tree.kids), R);
  }

  /** The first two children of a fresh Node4. */
  method AddPair(n: Node, x: Byte, cx: Ptr, y: Byte, cy: Ptr)
    requires n.Layout() && n.kind == Node4 && n.kids == map[] && x != y && cx != Null && cy != Null
    modifies n`numChildren, n`kids, n`owner, n.keys, n.children
    ensures n.Layout() && n.kids == map[x := cx, y := cy] && |n.kids| == 2
    ensures n.prefixLen == old(n.prefixLen) && n.prefix.Length == MAX_PREFIX_LEN && n.prefix != n.keys
  {
    hide Node.Layout;
    n.Counted();
    var m := n.AddChild(x, cx);
    m := n.AddChild(y, cy);
    n.Counted();
  }

  lemma PairKids(x: Byte, cx: Ptr, y: Byte, cy: Ptr)
    requires x != y && cx != Null && cy != Null && ValidPtr(cx) && ValidPtr(cy) && Foot(cx) !! Foot(cy)
    ensures Kids(map[x := cx, y := cy], map[x := TreeOf(cx), y := TreeOf(cy)], Foot(cx) + Foot(cy))
  {
    hide ValidPtr;
    KidsNone();
    hide Kids;
    KidsAdd(map[], map[], {}, x, cx);
    assert {} + Foot(cx) == Foot(cx);
    assert map[][x := cx] == map[x := cx];
    assert map[][x := TreeOf(cx)] == map[x := TreeOf(cx)];
    KidsAdd(map[x := cx], map[x := TreeOf(cx)], Foot(cx), y, cy);
    assert map[x := cx][y := cy] == map[x := cx, y := cy];
    assert map[x := TreeOf(cx)][y := TreeOf(cy)] == map[x := TreeOf(cx), y := TreeOf(cy)];
  }

  /** A fresh Node4 with its prefix in place becomes a branch with two children. */
  method FinishBranch(n: Node, x: Byte, leaf: LeafNode, y: Byte, o: Ptr)
    requires n.Layout() && n.kind == Node4 && n.kids == map[] && x != y
    requires o != Null && ValidPtr(o) && leaf !in Foot(o) && n.Own() !! Foot(o) + {leaf}
    modifies n, n.keys, n.children
    ensures n.Valid() && n.Repr == {leaf} + Foot(o) + n.Own()
    ensures n.prefixLen == old(n.prefixLen)
    ensures n.tree == Inner(old(n.prefixLen), old(n.Stored()), map[x := Leaf(leaf.key, leaf.value), y := TreeOf(o)])
  {
    hide Node.Layout;
    hide Kids;
    n.Counted();
    PairKids(x, ToLeaf(leaf), y, o);
    AddPair(n, x, ToLeaf(leaf), y, o);
    Record(n, Inner(n.prefixLen, n.Stored(), map[x := Leaf(leaf.key, leaf.value), y := TreeOf(o)]), {leaf} + Foot(o));
  }

  /** Lazy expansion: a leaf with another key becomes a Node4 with both leaves. */
  method ExpandLeaf(l: LeafNode, depth: nat, key: seq<Byte>, value: Value) returns (n: Node)
    requires IsKey(key) && IsKey(l.key) && depth <= |key| && key != l.key && key[..depth] <= l.key
    ensures HasInserted(ToNode(n), key[..depth], map[l.key := l.value], key, value)
    ensures fresh(n.Repr - {l})
  {
    hide Node.Layout;
    hide Node.Valid;
    hide Kids;
    hide MinKey;
    hide Wf;
    hide Dict;
    hide StoredPart;
    hide Diverge;
    var idx;
    n, idx := ComparePaths(l.key, depth, key);
    LeafExpanded(depth, key, value, l.key, l.value, idx);
    var leaf := new LeafNode(key, value);
    FinishBranch(n, key[idx], leaf, l.key[idx], ToLeaf(l));
    NodeIsValid(n);
  }

  lemma LeafExpanded(depth: nat, key: seq<Byte>, value: Value, o: seq<Byte>, ov: Value, idx: nat)
    requires IsKey(key) && IsKey(o) && key != o && depth <= |key| && key[..depth] <= o
    requires depth <= idx == Diverge(key, o, depth)
    ensures idx < |key| && idx < |o| && key[idx] != o[idx]
    ensures var t := Inner(idx - depth, StoredPart(key[depth..idx]), map[key[idx] := Leaf(key, value), o[idx] := Leaf(o, ov)]);
            Wf(t, key[..depth]) && Dict(t) == map[o := ov][key := value]
  {
    hide MinKey;
    var p := key[..depth];
    LeafParts(p, key, o, idx);
    assert Wf(Leaf(o, ov), p);
    var t := Inner(idx - depth, StoredPart(key[depth..idx]), map[key[idx] := Leaf(key, value), o[idx] := Leaf(o, ov)]);
    LeafExpands(Leaf(o, ov), p, key, value, idx, t);
  }

  /** A fresh Node4, and the loop that finds where two keys part, storing the bytes it passes. */
  method ComparePaths(leafKey: seq<Byte>, depth: nat, key: seq<Byte>) returns (n: Node, idx: nat)
    requires depth <= |key| && depth <= |leafKey|
    ensures fresh(n.Own()) && n.Layout() && n.kind == Node4 && n.kids == map[]
    ensures depth <= idx <= |key| && idx == Diverge(key, leafKey, depth) && n.prefixLen == idx - depth
    ensures n.Stored() == StoredPart(key[depth..idx])
  {
    hide SortedPairs;
    n := new Node(Node4);
    ghost var ks, cs := n.keys[..n.numChildren], n.children[..n.numChildren];
    idx := depth;
    while idx < Min(|key|, |leafKey|) && key[idx] == leafKey[idx]
      invariant depth <= idx <= |key| && idx <= |leafKey|
      invariant Diverge(key, leafKey, depth) == Diverge(key, leafKey, idx)
      invariant forall i :: 0 <= i < Min(idx - depth, MAX_PREFIX_LEN) ==> n.prefix[i] == key[depth + i]
      modifies n.prefix
    {
      if idx - depth < MAX_PREFIX_LEN {
        n.prefix[idx - depth] := key[idx];
      }
      idx := idx + 1;
    }
    n.prefixLen := idx - depth;
    assert n.keys[..n.numChildren] == ks && n.children[..n.numChildren] == cs;
    StoredSlice(n.prefix[..], key, depth, idx);
  }

  lemma StoredSlice(buffer: seq<Byte>, key: seq<Byte>, depth: nat, idx: nat)
    requires |buffer| == MAX_PREFIX_LEN && depth <= idx <= |key|
    requires forall i :: 0 <= i < Min(idx - depth, MAX_PREFIX_LEN) ==> buffer[i] == key[depth + i]
    ensures buffer[..Min(idx - depth, MAX_PREFIX_LEN)] == StoredPart(key[depth..idx])
  {
  }

  /** A fresh Node4 with the first `diff` bytes of a node's prefix. */
  method UpperNode(n: Node, diff: nat) returns (up: Node)
    requires n.prefix.Length == MAX_PREFIX_LEN
    ensures up.Layout() && up.kind == Node4 && up.kids == map[] && fresh(up.Own())
    ensures up.prefixLen == diff && up.Stored() == n.prefix[..Min(diff, MAX_PREFIX_LEN)]
  {
    hide SortedPairs;
    hide Indexed;
    hide Direct;
    up := new Node(Node4);
    CopyFirst(up.prefix, n.prefix, Min(MAX_PREFIX_LEN, diff));
    up.prefixLen := diff;
  }

  /** The lower half of a split: the node keeps its children under the rest of its path. When the
      path was longer than the stored bytes, the leftmost leaf supplies the missing ones. */
  method MoveDown(n: Node, depth: nat, diff: nat, ghost p: seq<Byte>, ghost k: seq<Byte>) returns (y: Byte)
    requires n.Valid() && n.tree.Inner? && Wf(n.tree, p) && |p| == depth && diff < n.tree.prefixLen
    requires depth + diff <= |k| && |Path(n.tree, p)| == depth + n.tree.prefixLen
    requires Path(n.tree, p)[..depth + diff] == k[..depth + diff]
    modifies n`prefixLen, n`tree, n`Repr, n.prefix
    ensures n.Valid() && n.Repr == old(n.Repr)
    ensures y == old(Path(n.tree, p)[depth + diff])
    ensures n.tree == old(Lower(n.tree, Path(n.tree, p), depth, diff))
  {
    hide Node.Valid;
    hide Node.Layout;
    hide Kids;
    hide Dict;
    hide MinKey;
    hide Wf;
    hide Path;
    NodeParts(n);
    SplitBytes(n.tree, p, k, diff);
    var rest := n.prefixLen - (diff + 1);
    if n.prefixLen <= MAX_PREFIX_LEN {
      y := n.prefix[diff];
      assert n.prefix[diff + 1..n.prefixLen] == n.tree.stored[diff + 1..];
      SetPrefix(n, rest, n.prefix[diff + 1..n.prefixLen]);
    } else {
      var minLeaf := MinLeaf(n);
      y := minLeaf.key[depth + diff];
      var from := depth + diff + 1;
      SetPrefix(n, rest, minLeaf.key[from..from + Min(MAX_PREFIX_LEN, rest)]);
    }
  }

  /** Splitting a node inside its path: a new Node4 above it takes the shared part. */
  method SplitNode(n: Node, depth: nat, diff: nat, key: seq<Byte>, value: Value) returns (up: Node)
    requires n.Valid() && n.tree.Inner? && IsKey(key) && depth <= |key| && Wf(n.tree, key[..depth])
    requires |n.tree.stored| == Min(n.tree.prefixLen, MAX_PREFIX_LEN) && depth + n.tree.prefixLen < |MinKey(n.tree)|
    requires diff < n.tree.prefixLen && diff == CheckPrefix(n.tree, key, depth)
    modifies n`prefixLen, n`tree, n`Repr, n.prefix
    ensures HasInserted(ToNode(up), key[..depth], old(Dict(n.tree)), key, value)
    ensures fresh(up.Repr - old(n.Repr))
  {
    hide Node.Valid;
    hide Node.Layout;
    hide Kids;
    hide Dict;
    hide MinKey;
    hide Wf;
    hide Path;
    hide CheckPrefix;
    ghost var t0, p := n.tree, key[..depth];
    NodeParts(n);
    CheckPrefixMeaning(t0, p, key);
    SplitBytes(t0, p, key, diff);
    var up0 := UpperNode(n, diff);
    up := up0;
    var leaf := new LeafNode(key, value);
    var y := MoveDown(n, depth, diff, p, key);
    FinishBranch(up, key[depth + diff], leaf, y, ToNode(n));
    NodeSplits(t0, p, key, value, diff, up.tree);
    NodeIsValid(up);
  }

  lemma NodeIsValid(n: Node)
    requires n.Valid()
    ensures ValidPtr(ToNode(n)) && n in n.Repr
  {
  }

  // ----- insertion below a node -----

  /** Replacing the child under `b`, which has been changed in place or by another one. */
  method ReplaceKid(n: Node, b: Byte, slot: nat, c: Ptr, ghost R: set<object>)
    requires n.Layout() && Resting(n.kind, |n.kids|) && n.SlotOf(b, slot) && b in n.kids
    requires n.tree.Inner? && n.tree.prefixLen == n.prefixLen && n.tree.stored == n.Stored()
    requires Kids(n.kids - {b}, n.tree.kids - {b}, R)
    requires c != Null && ValidPtr(c) && Foot(c) !! R && n.Own() !! R + Foot(c)
    modifies n`kids, n`tree, n`Repr, n.children
    ensures n.Valid() && n.Repr == R + Foot(c) + n.Own()
    ensures n.tree == old(n.tree).(kids := old(n.tree.kids)[b := old(TreeOf(c))])
  {
    hide Kids;
    hide Node.Layout;
    hide Leads;
    n.Counted();
    KidsAdd(n.kids - {b}, n.tree.kids - {b}, R, b, c);
    MapPutBack(n.kids, b, c);
    MapPutBack(n.tree.kids, b, TreeOf(c));
    ghost var t := n.tree.(kids := n.tree.kids[b := TreeOf(c)]);
    assert n.kids[b := c].Keys == n.kids.Keys;
    assert |n.kids[b := c].Keys| == |n.kids.Keys|;
    n.PutChild(b, slot, c);
    Record(n, t, R + Foot(c));
  }

  /** Adding a leaf under a byte that has no child, growing the node if it is full. */
  method AddLeaf(n: Node, b: Byte, leaf: LeafNode) returns (m: Node)
    requires n.Valid() && b !in n.kids && leaf !in n.Repr
    modifies n, n.keys, n.children
    ensures m.Valid() && m.tree == old(n.tree).(kids := old(n.tree.kids)[b := Leaf(leaf.key, leaf.value)])
    ensures fresh(m.Repr - old(n.Repr) - {leaf})
  {
    hide Node.Layout;
    hide Kids;
    hide Leads;
    NodeParts(n);
    n.Counted();
    ghost var R := n.Repr - n.Own();
    ghost var t := n.tree.(kids := n.tree.kids[b := Leaf(leaf.key, leaf.value)]);
    KidsAdd(n.kids, n.tree.kids, R, b, ToLeaf(leaf));
    m := n.AddChild(b, ToLeaf(leaf));
    m.Counted();
    Record(m, t, R + {leaf});
  }

  /** `art_node_insert`: the pointer that takes the place of `node`, and whether the key is new. */
  method InsertPtr(node: Ptr, depth: nat, key: seq<Byte>, value: Value) returns (res: Ptr, isNew: bool)
    requires IsKey(key) && depth <= |key| && ValidPtr(node)
    requires node != Null ==> Wf(TreeOf(node), key[..depth])
    modifies Foot(node)
    ensures HasInserted(res, key[..depth], old(DictOf(node)), key, value)
    ensures fresh(Foot(res) - old(Foot(node)))
    ensures isNew <==> key !in old(DictOf(node))
    decreases |key| - depth, 2
  {
    hide Node.Valid;
    hide Node.Layout;
    hide MinKey;
    match node {
      case Null =>
        var leaf := new LeafNode(key, value);
        res, isNew := ToLeaf(leaf), true;
        assert Dict(Leaf(key, value)) == map[key := value];
      case ToLeaf(l) =>
        if l.key == key {
          l.value := value;
          res, isNew := node, false;
        } else {
          var n := ExpandLeaf(l, depth, key, value);
          res, isNew := ToNode(n), true;
        }
      case ToNode(n) =>
        res, isNew := InsertNode(n, depth, key, value);
    }
  }

  method InsertNode(n: Node, depth: nat, key: seq<Byte>, value: Value) returns (res: Ptr, isNew: bool)
    requires IsKey(key) && depth <= |key| && n.Valid() && Wf(n.tree, key[..depth])
    modifies n.Repr
    ensures HasInserted(res, key[..depth], old(Dict(n.tree)), key, value)
    ensures fresh(Foot(res) - old(n.Repr))
    ensures isNew <==> key !in old(Dict(n.tree))
    decreases |key| - depth, 1
  {
    hide Node.Valid;
    hide Node.Layout;
    hide Kids;
    hide MinKey;
    hide Wf;
    hide Dict;
    hide CheckPrefix;
    NodeParts(n);
    StoredBytes(n.tree, key[..depth]);
    CheckPrefixMeaning(n.tree, key[..depth], key);
    var diff := FullMatch(n, key, depth);
    if diff < n.prefixLen {
      SplitIsNew(n.tree, depth, key, diff);
      var up := SplitNode(n, depth, diff, key, value);
      res, isNew := ToNode(up), true;
    } else {
      res, isNew := InsertBelow(n, depth, key, value);
    }
  }

  lemma SplitIsNew(t: Tree, depth: nat, key: seq<Byte>, diff: nat)
    requires IsKey(key) && depth <= |key| && t.Inner? && Wf(t, key[..depth])
    requires diff < t.prefixLen && depth + diff < |key|
    requires |Path(t, key[..depth])| == depth + t.prefixLen && key[depth + diff] != Path(t, key[..depth])[depth + diff]
    ensures key !in Dict(t)
  {
    hide Wf;
    hide Dict;
    hide MinKey;
    if key in Dict(t) {
      KeysExtend(t, key[..depth], key);
    }
  }

  /** The key goes on past the path of the node: insert below the child it selects, or add it. */
  method InsertBelow(n: Node, depth: nat, key: seq<Byte>, value: Value) returns (res: Ptr, isNew: bool)
    requires IsKey(key) && n.Valid() && n.tree.Inner? && depth + n.tree.prefixLen < |key| && Wf(n.tree, key[..depth])
    requires Path(n.tree, key[..depth]) == key[..depth + n.tree.prefixLen]
    modifies n.Repr
    ensures HasInserted(res, key[..depth], old(Dict(n.tree)), key, value)
    ensures fresh(Foot(res) - old(n.Repr))
    ensures isNew <==> key !in old(Dict(n.tree))
    decreases |key| - depth, 0
  {
    hide Node.Valid;
    hide Node.Layout;
    hide Kids;
    hide MinKey;
    hide Wf;
    hide Dict;
    hide Path;
    ghost var t, p := n.tree, key[..depth];
    NodeParts(n);
    var d := depth + n.prefixLen;
    var b := key[d];
    assert key[..d] + [b] == key[..d + 1];
    DictKid(t, p, key);
    var slot := n.GetChild(b);
    if slot >= 0 && n.children[slot] != Null {
      var c := n.children[slot];
      SlotHasKid(n, b, slot);
      NodeKid(n, b);
      KidWf(t, p, b);
      ghost var R := n.Repr - n.Own() - Foot(c);
      KidsDrop(n.kids, t.kids, n.Repr - n.Own(), b);
      var r;
      r, isNew := InsertPtr(c, d + 1, key, value);
      KidInserted(t, p, key, value, b, TreeOf(r));
      ReplaceKid(n, b, slot, r, R);
      res := ToNode(n);
      NodeIsValid(n);
    } else {
      // Either there is no slot for the byte, or it is an empty slot of a Node256.
      SlotIsFree(n, b, slot);
      var leaf := new LeafNode(key, value);
      LeafAdded(t, p, key, value, b);
      var m := AddLeaf(n, b, leaf);
      res, isNew := ToNode(m), true;
      NodeIsValid(m);
    }
  }

  lemma SlotHasKid(n: Node, b: Byte, slot: nat)
    requires n.Layout() && n.SlotOf(b, slot) && n.children[slot] != Null
    ensures b in n.kids && n.children[slot] == n.kids[b]
  {
  }

  lemma SlotIsFree(n: Node, b: Byte, slot: int)
    requires n.Layout() && slot >= -1
    requires slot == -1 ==> b !in n.kids
    requires slot >= 0 ==> n.SlotOf(b, slot) && n.children[slot] == Null
    ensures b !in n.kids
  {
  }
}
