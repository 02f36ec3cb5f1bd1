// art_node_delete in memory: the optimistic descent, the removal of a leaf, and the merge of a
// Node4 with the child that is left.

module ArtDelete {
  import opened Bytes
  import opened Values
  import opened ArtTree
  import opened ArtOps
  import opened ArtNode
  import opened ArtHeap
  import opened ArtInsert

  /** `c`, which may be no node at all, leads to the map `m` without one key. */
  ghost predicate HasDeleted(c: Ptr, p: seq<Byte>, m: map<seq<Byte>, Value>, key: seq<Byte>)
    reads if c.ToNode? then {c.node} else if c.ToLeaf? then {c.leaf} else {}, Foot(c)
  {
    && ValidPtr(c)
    && (c != Null ==> Wf(TreeOf(c), p))
    && DictOf(c) == m - {key}
  }

  lemma KidsLoses(kids: map<Byte, Ptr>, ts: map<Byte, Tree>, R: set<object>, b: Byte)
    requires Kids(kids, ts, R) && b in kids
    ensures Kids(kids - {b}, ts - {b}, R)
  {
    hide Leads;
  }

  /** The in-place merge of `node4_remove_child`: the node's prefix buffer collects the edge byte and
      the child's prefix, then becomes the child's prefix. */
  method MergeInto(n: Node, b: Byte, child: Node)
    requires n.prefix.Length == MAX_PREFIX_LEN && child.Valid() && n !in child.Repr && n.prefix !in child.Repr
    modifies n.prefix, child`prefixLen, child`tree, child`Repr, child.prefix
    ensures child.Valid() && child.Repr == old(child.Repr)
    ensures child.tree == Inner(n.prefixLen + 1 + old(child.tree.prefixLen),
                                MergedStored(n.prefixLen, old(n.Stored()), b, old(child.tree.stored)), old(child.tree.kids))
  {
    hide Node.Valid;
    hide Node.Layout;
    hide Kids;
    NodeParts(child);
    ghost var was, low := n.Stored(), child.tree.stored;
    var len := n.prefixLen;
    if len < MAX_PREFIX_LEN {
      n.prefix[len] := b;
      len := len + 1;
    }
    ghost var head := n.prefix[..Min(len, MAX_PREFIX_LEN)];
    var i := 0;
    while len + i < MAX_PREFIX_LEN && i < child.prefixLen
      invariant i <= child.prefixLen && (len + i <= MAX_PREFIX_LEN || i == 0)
      invariant n.prefix[..Min(len, MAX_PREFIX_LEN)] == head
      invariant forall j :: 0 <= j < i ==> n.prefix[len + j] == child.prefix[j]
      modifies n.prefix
    {
      n.prefix[len + i] := child.prefix[i];
      i := i + 1;
    }
    var plen := n.prefixLen + 1 + child.prefixLen;
    MergedBytes(n.prefix[..], head, child.prefix[..], n.prefixLen, was, b, low, i, child.prefixLen);
    SetPrefix(child, plen, n.prefix[..Min(plen, MAX_PREFIX_LEN)]);
  }

  /** What the buffer holds after the loop. */
  lemma MergedBytes(buffer: seq<Byte>, head: seq<Byte>, low: seq<Byte>, plen: nat, was: seq<Byte>, b: Byte, child: seq<Byte>, i: nat, clen: nat)
    requires |buffer| == |low| == MAX_PREFIX_LEN && |was| == Min(plen, MAX_PREFIX_LEN)
    requires child == low[..Min(clen, MAX_PREFIX_LEN)]
    requires if plen < MAX_PREFIX_LEN then head == was + [b] else head == was
    requires buffer[..|head|] == head
    requires i == (if plen < MAX_PREFIX_LEN then Min(clen, MAX_PREFIX_LEN - |head|) else 0)
    requires forall j :: 0 <= j < i ==> buffer[|head| + j] == low[j]
    ensures buffer[..Min(plen + 1 + clen, MAX_PREFIX_LEN)] == MergedStored(plen, was, b, child)
  {
    if plen < MAX_PREFIX_LEN {
      var whole := was + [b] + child;
      var n := Min(plen + 1 + clen, MAX_PREFIX_LEN);
      assert n == |head| + i && n == Min(|whole|, MAX_PREFIX_LEN);
      assert whole[..|head|] == head;
      forall j | 0 <= j < n ensures buffer[j] == whole[j] {
        if j < |head| {
          assert buffer[..|head|][j] == buffer[j];
        } else {
          assert buffer[|head| + (j - |head|)] == low[j - |head|];
        }
      }
    }
  }

  /** `node_remove_child` for a leaf: the node, its smaller replacement, or the child it merges with. */
  method RemoveLeaf(n: Node, ghost p: seq<Byte>, b: Byte, ghost key: seq<Byte>) returns (res: Ptr)
    requires n.Valid() && Wf(n.tree, p) && b in n.kids && n.kids[b].ToLeaf? && n.kids[b].leaf.key == key
    modifies n.Repr
    ensures res != Null && HasDeleted(res, p, old(Dict(n.tree)), key) && fresh(Foot(res) - old(n.Repr))
  {
    hide Node.Valid;
    hide Node.Layout;
    hide Kids;
    hide Leads;
    hide MinKey;
    hide Wf;
    hide Dict;
    NodeParts(n);
    NodeKid(n, b);
    LeafDict(n.tree.kids[b]);
    ghost var t := n.tree;
    ghost var R := n.Repr - n.Own();
    KidsLoses(n.kids, t.kids, R, b);
    n.Counted();
    assert |t.kids| == |t.kids.Keys| == |n.kids.Keys|;
    if n.kind == Node4 && n.numChildren == 2 {
      res := RemoveAndMerge(n, p, b, key);
    } else {
      LeafRemoved(t, p, key, b);
      var m := n.RemoveChild(b);
      m.Counted();
      Record(m, t.(kids := t.kids - {b}), R);
      res := ToNode(m);
      NodeIsValid(m);
    }
  }

  lemma LeafDict(t: Tree)
    requires t.Leaf?
    ensures Dict(t) == map[t.key := t.value] && Dict(t).Keys == {t.key}
  {
  }

  lemma TwoKeys(m: map<Byte, Tree>, b: Byte) returns (c: Byte)
    requires |m| == 2 && b in m
    ensures b != c && m.Keys == {b, c}
  {
    var rest := m.Keys - {b};
    assert |rest| == 1;
    c :| c in rest;
    assert |rest - {c}| == 0;
  }

  /** Removing one of the two children of a Node4 leaves the other in its place. */
  method RemoveAndMerge(n: Node, ghost p: seq<Byte>, b: Byte, ghost key: seq<Byte>) returns (res: Ptr)
    requires n.Valid() && n.tree.Inner? && Wf(n.tree, p) && b in n.kids && |n.tree.kids| == 2
    requires b in n.tree.kids && Dict(n.tree.kids[b]).Keys == {key}
    modifies n.Repr
    ensures res != Null && HasDeleted(res, p, old(Dict(n.tree)), key) && fresh(Foot(res) - old(n.Repr))
  {
    hide Node.Valid;
    hide Node.Layout;
    hide Kids;
    hide Leads;
    hide MinKey;
    hide Wf;
    hide Dict;
    NodeParts(n);
    ghost var t := n.tree;
    ghost var c := TwoKeys(t.kids, b);
    LeafMerged(t, p, key, b, c);
    NodeKid(n, c);
    ghost var kid := n.kids[c];
    assert |n.kids.Keys| == |t.kids.Keys|;
    n.Counted();
    var m := n.RemoveChild(b);
    OnlyChild(n, c);
    assert n.kids[c] == kid;
    res := n.children[0];
    assert res == kid && ValidPtr(kid) && TreeOf(kid) == t.kids[c];
    if res.ToNode? {
      var child := res.node;
      NodeParts(child);
      MergeInto(n, n.keys[0], child);
      NodeIsValid(child);
      assert child.tree == Merged(t, c, t.kids[c]);
    }
    assert TreeOf(res) == Merged(t, c, t.kids[c]);
  }

  /** The child that is left in a Node4 with one child is in the first slot. */
  lemma OnlyChild(n: Node, c: Byte)
    requires n.Layout() && n.kind == Node4 && n.kids.Keys == {c}
    ensures n.prefix.Length == MAX_PREFIX_LEN && n.keys.Length > 0 && n.children.Length > 0
    ensures n.keys[0] == c && n.children[0] == n.kids[c]
  {
    assert |n.kids.Keys| == 1;
    assert n.keys[..n.numChildren][0] in n.kids.Keys;
  }

  /** `art_node_delete`: the pointer that takes the place of `node`, and the value of the leaf that was
      removed, if one was. */
  method DeletePtr(node: Ptr, depth: nat, ghost p: seq<Byte>, key: seq<Byte>) returns (res: Ptr, removed: Option<Value>)
    requires IsKey(key) && depth == |p| <= |key| && ValidPtr(node)
    requires node != Null ==> Wf(TreeOf(node), p)
    modifies Foot(node)
    ensures HasDeleted(res, p, old(DictOf(node)), key) && fresh(Foot(res) - old(Foot(node)))
    ensures removed == Lookup(old(DictOf(node)), key)
    ensures node.ToNode? ==> res != Null
    decreases |key| - depth, 2
  {
    hide Node.Valid;
    hide Node.Layout;
    hide MinKey;
    match node {
      case Null =>
        res, removed := Null, None;
      case ToLeaf(l) =>
        LeafDict(TreeOf(node));
        if l.key == key {
          res, removed := Null, Some(l.value);
          assert map[l.key := l.value] - {key} == map[];
        } else {
          res, removed := node, None;
          assert map[l.key := l.value] - {key} == map[l.key := l.value];
        }
      case ToNode(n) =>
        res, removed := DeleteNode(n, depth, p, key);
    }
  }

  lemma NothingDeleted(n: Node, p: seq<Byte>, key: seq<Byte>)
    requires n.Valid() && Wf(n.tree, p) && key !in Dict(n.tree)
    ensures HasDeleted(ToNode(n), p, Dict(n.tree), key)
  {
    hide Dict;
    hide MinKey;
    assert Dict(n.tree) - {key} == Dict(n.tree);
  }

  method DeleteNode(n: Node, depth: nat, ghost p: seq<Byte>, key: seq<Byte>) returns (res: Ptr, removed: Option<Value>)
    requires IsKey(key) && depth == |p| <= |key| && n.Valid() && Wf(n.tree, p)
    modifies n.Repr
    ensures res != Null && HasDeleted(res, p, old(Dict(n.tree)), key) && fresh(Foot(res) - old(n.Repr))
    ensures removed == Lookup(old(Dict(n.tree)), key)
    decreases |key| - depth, 1
  {
    hide Node.Valid;
    hide Node.Layout;
    hide Kids;
    hide MinKey;
    hide Wf;
    hide Dict;
    hide Path;
    hide HasDeleted;
    hide CheckPrefixPartial;
    ghost var t := n.tree;
    NodeParts(n);
    NodeIsValid(n);
    SearchStep(t, p, key);
    res, removed := ToNode(n), None;
    var diff := PartialMatch(n, key, depth);
    if diff != Min(MAX_PREFIX_LEN, n.prefixLen) {
      NothingDeleted(n, p, key);
      return;
    }
    var d := depth + n.prefixLen;
    if d >= |key| {
      NothingDeleted(n, p, key);
      return;
    }
    var b := key[d];
    var slot := n.GetChild(b);
    if slot == -1 || n.children[slot] == Null {
      SlotIsFree(n, b, slot);
      NothingDeleted(n, p, key);
      return;
    }
    var c := n.children[slot];
    SlotHasKid(n, b, slot);
    NodeKid(n, b);
    if c.ToLeaf? {
      LeafDict(t.kids[b]);
      if c.leaf.key == key {
        removed := Some(c.leaf.value);
        res := RemoveLeaf(n, p, b, key);
      } else {
        NothingDeleted(n, p, key);
      }
    } else {
      res, removed := DeleteBelow(n, d, p, b, slot, key);
    }
  }

  method DeleteBelow(n: Node, d: nat, ghost p: seq<Byte>, b: Byte, slot: nat, key: seq<Byte>) returns (res: Ptr, removed: Option<Value>)
    requires IsKey(key) && n.Valid() && n.tree.Inner? && Wf(n.tree, p) && d == |p| + n.tree.prefixLen < |key| && key[d] == b
    requires b in n.kids && n.Layout() && n.SlotOf(b, slot) && n.kids[b].ToNode?
    modifies n.Repr
    ensures res != Null && HasDeleted(res, p, old(Dict(n.tree)), key) && fresh(Foot(res) - old(n.Repr))
    ensures removed == Lookup(old(Dict(n.tree)), key)
    decreases |key| - d, 0
  {
    hide Node.Valid;
    hide Node.Layout;
    hide Kids;
    hide MinKey;
    hide Wf;
    hide Dict;
    hide Path;
    ghost var t := n.tree;
    NodeParts(n);
    NodeKid(n, b);
    KidWf(t, p, b);
    DictKid(t, p, key);
    var c := n.children[slot];
    SlotHasKid(n, b, slot);
    ghost var R := n.Repr - n.Own() - Foot(c);
    KidsDrop(n.kids, t.kids, n.Repr - n.Own(), b);
    var r;
    r, removed := DeletePtr(c, d + 1, Path(t, p) + [b], key);
    KidDeleted(t, p, key, b, TreeOf(r));
    ReplaceKid(n, b, slot, r, R);
    res := ToNode(n);
    NodeIsValid(n);
  }
}
