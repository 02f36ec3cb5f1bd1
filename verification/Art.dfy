// The adaptive radix tree (art.c) as its callers see it: a map from C strings to values.

module Art {
  import opened Bytes
  import opened Values
  import opened ArtTree
  import opened ArtOps
  import opened ArtOrder
  import opened ArtNode
  import opened ArtHeap
  import opened ArtInsert
  import opened ArtDelete
  import opened ArtVisit

  /** The key bytes that the tree compares: the string with its terminator. */
  function KeyOf(s: seq<Byte>): (k: seq<Byte>)
    requires IsCString(s)
    ensures IsKey(k)
  {
    s + [0]
  }

  class Tree {
    var root: Ptr
    var size: nat

    /** The map the tree stands for. */
    ghost function Contents(): map<seq<Byte>, Value>
      reads this, if root.ToNode? then {root.node} else if root.ToLeaf? then {root.leaf} else {}
    {
      DictOf(root)
    }

    ghost predicate Valid()
      reads this, if root.ToNode? then {root.node} else {}, Foot(root)
    {
      && this !in Foot(root)
      && ValidPtr(root)
      && (root != Null ==> Wf(TreeOf(root), []))
      && size == |Contents()|
    }

    /** `pgvictoria_art_create`. */
    constructor ()
      ensures Valid() && Contents() == map[] && size == 0
    {
      root := Null;
      size := 0;
    }

    /** `pgvictoria_art_insert`: 0, or 1 for a NULL key or a value without a type. */
    method Insert(key: Option<seq<Byte>>, value: Value) returns (status: int)
      requires Valid() && (key.Some? ==> IsCString(key.value))
      modifies this, Foot(root)
      ensures Valid() && fresh(Foot(root) - old(Foot(root)))
      ensures key.None? || value.vtype == 0 ==> status == 1 && Contents() == old(Contents())
      ensures key.Some? && value.vtype != 0 ==> status == 0 && Contents() == old(Contents())[KeyOf(key.value) := value]
    {
      hide Node.Valid;
      hide Wf;
      hide Dict;
      if key.None? || value.vtype == VALUE_NONE {
        return 1;
      }
      var k := KeyOf(key.value);
      assert k[..0] == [];
      KeyInserted(Contents(), k, value);
      var res, isNew := InsertPtr(root, 0, k, value);
      root := res;
      if isNew {
        size := size + 1;
      }
      return 0;
    }

    /** `pgvictoria_art_delete`: 0 also when the key is absent, 1 only for a NULL key. */
    method Delete(key: Option<seq<Byte>>) returns (status: int)
      requires Valid() && (key.Some? ==> IsCString(key.value))
      modifies this, Foot(root)
      ensures Valid() && fresh(Foot(root) - old(Foot(root)))
      ensures key.None? ==> status == 1 && Contents() == old(Contents())
      ensures key.Some? ==> status == 0 && Contents() == old(Contents()) - {KeyOf(key.value)}
    {
      hide Node.Valid;
      hide Wf;
      hide Dict;
      if key.None? {
        return 1;
      }
      DeleteKey(KeyOf(key.value));
      return 0;
    }

    method DeleteKey(k: seq<Byte>)
      requires Valid() && IsKey(k)
      modifies this, Foot(root)
      ensures Valid() && fresh(Foot(root) - old(Foot(root)))
      ensures Contents() == old(Contents()) - {k}
    {
      hide Node.Valid;
      hide Wf;
      hide Dict;
      hide Lookup;
      KeyRemoved(Contents(), k);
      var res, removed := DeletePtr(root, 0, [], k);
      root := res;
      if removed.Some? {
        size := size - 1;
      }
    }

    /** `pgvictoria_art_clear`. */
    method Clear()
      requires Valid()
      modifies this
      ensures Valid() && Contents() == map[] && root == Null
    {
      root := Null;
      size := 0;
    }

    /** `art_search`: the value in the leaf, if the leaf that the descent ends in has this key. */
    method SearchValue(k: seq<Byte>) returns (r: Option<Value>)
      requires Valid() && IsKey(k)
      ensures r == Lookup(Contents(), k)
    {
      hide Node.Valid;
      hide Wf;
      hide Dict;
      hide ValidPtr;
      hide Lookup;
      NoneIn(k);
      var node := root;
      var depth := 0;
      ghost var p: seq<Byte> := [];
      while node.ToNode?
        invariant ValidPtr(node) && (node != Null ==> |p| == depth <= |k| && Wf(TreeOf(node), p))
        invariant Lookup(DictOf(node), k) == Lookup(Contents(), k)
        decreases Foot(node)
      {
        PtrNode(node);
        node, depth, p := SearchNode(node.node, p, k, depth);
      }
      if node == Null {
        return None;
      }
      LeafLookup(node.leaf.key, node.leaf.value, k);
      return if node.leaf.key == k then Some(node.leaf.value) else None;
    }

    /** `pgvictoria_art_search`: the data word, or 0. */
    method Search(key: Option<seq<Byte>>) returns (data: nat)
      requires Valid() && (key.Some? ==> IsCString(key.value))
      ensures data == if key.Some? && KeyOf(key.value) in Contents() then Contents()[KeyOf(key.value)].data else 0
    {
      if key.None? {
        return 0;
      }
      var v := SearchValue(KeyOf(key.value));
      return if v.Some? then v.value.data else 0;
    }

    /** `pgvictoria_art_contains_key`. */
    method ContainsKey(key: Option<seq<Byte>>) returns (found: bool)
      requires Valid() && (key.Some? ==> IsCString(key.value))
      ensures found <==> key.Some? && KeyOf(key.value) in Contents()
    {
      if key.None? {
        return false;
      }
      var v := SearchValue(KeyOf(key.value));
      return v.Some?;
    }

    /** The entries in traversal order. */
    ghost function InOrder(): seq<Entry>
      reads this, if root.ToNode? then {root.node} else if root.ToLeaf? then {root.leaf} else {}
    {
      if root == Null then [] else Entries(TreeOf(root))
    }

    /** Traversal lists the map, each key once, in increasing unsigned-byte order. */
    lemma InOrderIsSorted()
      requires Valid()
      ensures Lists(InOrder(), Contents()) && Increasing(InOrder())
    {
      if root != Null {
        TraversalInOrder(TreeOf(root), []);
      }
    }

    /** `pgvictoria_art_prefix_search`: -1 on an empty tree or no room for a match; otherwise the
        first `max` keys, in order, that start with the prefix, each copied. A NULL or empty prefix matches all. */
    method PrefixSearch(pre: Option<seq<Byte>>, max: int) returns (count: int, matches: seq<Match>)
      requires Valid() && (pre.Some? ==> IsCString(pre.value))
      ensures root == Null || max <= 0 ==> count == -1 && matches == []
      ensures root != Null && max > 0 ==>
                && count == |matches|
                && matches == FirstMatches([], WithPrefix(InOrder(), if pre.Some? then pre.value else []), max)
    {
      hide Node.Valid;
      hide Wf;
      hide Entries;
      hide FirstMatches;
      if root == Null || max <= 0 {
        return -1, [];
      }
      if pre.None? || |pre.value| == 0 {
        WithPrefixAll(InOrder(), []);
        var stop;
        matches, stop := Collect(root, [], max);
        return |matches|, matches;
      }
      matches := PrefixDescend(root, pre.value, max);
      count := |matches|;
    }

    /** Every match is a copy of the key it stands for, except that the empty key has no copy: its
        slot stays NULL, although it is counted. All slots hold keys exactly if the prefix is not
        empty or the empty key is not in the tree. */
    lemma MatchesAreKeys(pre: seq<Byte>, max: nat)
      requires Valid() && IsCString(pre) && max > 0
      ensures var es := WithPrefix(InOrder(), pre);
              var ms := FirstMatches([], es, max);
              && |ms| == Min(|es|, max)
              && (forall i :: 0 <= i < |ms| ==>
                    if es[i].0 == KeyOf([]) then ms[i] == None else ms[i].Some? && ms[i].value + [0] == es[i].0)
              && (None !in ms <==> pre != [] || KeyOf([]) !in Contents())
    {
      hide Node.Valid;
      hide Wf;
      hide Dict;
      hide Entries;
      InOrderIsSorted();
      forall i | 0 <= i < |InOrder()| ensures IsKey(InOrder()[i].0) {
        KeysExtend(TreeOf(root), [], InOrder()[i].0);
      }
      SlotsAreKeys(InOrder(), pre, max);
    }

    /** The descent of prefix search. Stored prefix bytes are compared on the way; the rest is
        settled by one full comparison, at a leaf or with the leftmost leaf of the subtree. */
    static method PrefixDescend(start: Ptr, pre: seq<Byte>, max: nat) returns (matches: seq<Match>)
      requires start != Null && ValidPtr(start) && Wf(TreeOf(start), []) && max > 0
      ensures matches == FirstMatches([], WithPrefix(Entries(TreeOf(start)), pre), max)
    {
      hide Node.Valid;
      hide Node.Layout;
      hide Wf;
      hide Entries;
      hide FirstMatches;
      hide CheckPrefixPartial;
      hide Path;
      hide MinKey;
      hide ValidPtr;
      hide WithPrefix;
      FirstMatchesNone([], max);
      var node := start;
      var depth := 0;
      ghost var p: seq<Byte> := [];
      while node.ToNode?
        invariant node != Null && ValidPtr(node) && Wf(TreeOf(node), p) && |p| == depth <= |pre|
        invariant WithPrefix(Entries(TreeOf(node)), pre) == WithPrefix(Entries(TreeOf(start)), pre)
        decreases Foot(node)
      {
        var n := node.node;
        PtrNode(node);
        NodeParts(n);
        PrefixStep(n.tree, p, pre);
        var len := PartialMatch(n, pre, depth);
        if len < Min(n.prefixLen, MAX_PREFIX_LEN) && depth + len < |pre| {
          return [];
        }
        depth := depth + n.prefixLen;
        if depth >= |pre| {
          matches := PrefixHere(n, p, pre, max);
          return;
        }
        var b := pre[depth];
        node := ChildOf(n, p, b);
        p := Path(n.tree, p) + [b];
        depth := depth + 1;
        if node == Null {
          return [];
        }
      }
      LeafMatches(node.leaf.key, node.leaf.value, pre, max);
      return if pre <= node.leaf.key then [MatchOf(node.leaf.key)] else [];
    }
  }

  lemma KeyRemoved(m: map<seq<Byte>, Value>, k: seq<Byte>)
    ensures Lookup(m, k).Some? <==> k in m
    ensures k !in m ==> m - {k} == m
    ensures k in m ==> |m - {k}| == |m| - 1
  {
    assert (m - {k}).Keys == m.Keys - {k};
    assert k in m ==> |m.Keys - {k}| == |m.Keys| - 1;
  }

  lemma KeyInserted(m: map<seq<Byte>, Value>, k: seq<Byte>, v: Value)
    ensures |m[k := v]| == if k in m then |m| else |m| + 1
  {
    if k in m {
      assert m[k := v].Keys == m.Keys;
      assert |m[k := v].Keys| == |m.Keys|;
    }
  }

  lemma SlotIsKey(k: seq<Byte>)
    requires IsKey(k)
    ensures if k == KeyOf([]) then MatchOf(k) == None else MatchOf(k).Some? && MatchOf(k).value + [0] == k
  {
    assert k == k[..|k| - 1] + [0];
  }

  lemma SlotsAreKeys(all: seq<Entry>, pre: seq<Byte>, max: nat)
    requires IsCString(pre) && max > 0 && Increasing(all) && forall i :: 0 <= i < |all| ==> IsKey(all[i].0)
    ensures var es := WithPrefix(all, pre);
            var ms := FirstMatches([], es, max);
            && |ms| == Min(|es|, max)
            && (forall i :: 0 <= i < |ms| ==>
                  if es[i].0 == KeyOf([]) then ms[i] == None else ms[i].Some? && ms[i].value + [0] == es[i].0)
            && (None !in ms <==> pre != [] || forall i :: 0 <= i < |all| ==> all[i].0 != KeyOf([]))
  {
    var es := WithPrefix(all, pre);
    var ms := FirstMatches([], es, max);
    FirstSlots(es, max);
    hide FirstMatches;
    hide MatchOf;
    forall i | 0 <= i < |ms|
      ensures if es[i].0 == KeyOf([]) then ms[i] == None else ms[i].Some? && ms[i].value + [0] == es[i].0
      ensures ms[i] == None ==> pre == [] && exists j :: 0 <= j < |all| && all[j].0 == KeyOf([])
    {
      var j := WithPrefixIn(all, pre, i);
      SlotIsKey(es[i].0);
    }
    if pre == [] && exists i :: 0 <= i < |all| && all[i].0 == KeyOf([]) {
      WithPrefixAll(all, pre);
      EmptyKeyFirst(all);
      assert ms[0] == None;
    }
  }

  lemma FirstSlots(es: seq<Entry>, max: nat)
    ensures var ms := FirstMatches([], es, max);
            |ms| == Min(|es|, max) && forall i :: 0 <= i < |ms| ==> ms[i] == MatchOf(es[i].0)
  {
  }

  /** The empty key comes before all others. */
  lemma EmptyKeyFirst(es: seq<Entry>)
    requires Increasing(es) && forall i :: 0 <= i < |es| ==> IsKey(es[i].0)
    requires exists i :: 0 <= i < |es| && es[i].0 == KeyOf([])
    ensures es[0].0 == KeyOf([])
  {
    assert !LexLess(es[0].0, KeyOf([]));
  }

  /** The tree with the empty key alone: one match, and it is NULL. */
  lemma EmptyKeyMatch(v: Value)
    ensures FirstMatches([], WithPrefix(Entries(Leaf(KeyOf([]), v)), []), 1) == [None]
  {
    LeafMatches(KeyOf([]), v, [], 1);
  }

  /** The prefix ends on the path of this node: its leftmost leaf decides for all of it. */
  method PrefixHere(n: Node, ghost p: seq<Byte>, pre: seq<Byte>, max: nat) returns (matches: seq<Match>)
    requires n.Valid() && n.tree.Inner? && Wf(n.tree, p) && |pre| <= |p| + n.tree.prefixLen
    ensures matches == FirstMatches([], WithPrefix(Entries(n.tree), pre), max)
  {
    hide Node.Valid;
    hide Node.Layout;
    hide Wf;
    hide Entries;
    hide FirstMatches;
    hide MinKey;
    hide WithPrefix;
    PrefixInsidePath(n.tree, p, pre);
    FirstMatchesNone([], max);
    var minLeaf := MinLeaf(n);
    if pre <= minLeaf.key {
      var stop;
      matches, stop := CollectKids(n, [], max);
    } else {
      matches := [];
    }
  }

  /** The child for a byte, or no node. */
  method ChildOf(n: Node, ghost p: seq<Byte>, b: Byte) returns (c: Ptr)
    requires n.Valid() && n.tree.Inner? && Wf(n.tree, p)
    ensures ValidPtr(c) && (c == Null <==> b !in n.tree.kids)
    ensures c != Null ==>
              && TreeOf(c) == n.tree.kids[b] && Wf(TreeOf(c), Path(n.tree, p) + [b])
              && DictOf(c) == Dict(n.tree.kids[b])
    ensures Foot(c) < n.Repr
  {
    hide Node.Valid;
    hide Node.Layout;
    hide Wf;
    hide Dict;
    NodeParts(n);
    var slot := n.GetChild(b);
    if slot == -1 || n.children[slot] == Null {
      SlotIsFree(n, b, slot);
      c := Null;
    } else {
      EnterKid(n, p, b, slot);
      c := n.children[slot];
    }
    assert n in n.Repr;
  }

  /** One turn of the loop of `art_search`: the child to go on with, or null if the key cannot be
      below this node. */
  method SearchNode(n: Node, ghost p: seq<Byte>, k: seq<Byte>, depth: nat)
      returns (c: Ptr, next: nat, ghost q: seq<Byte>)
    requires n.Valid() && n.tree.Inner? && Wf(n.tree, p) && IsKey(k) && |p| == depth <= |k|
    ensures ValidPtr(c) && (c != Null ==> |q| == next <= |k| && Wf(TreeOf(c), q))
    ensures Foot(c) < n.Repr
    ensures Lookup(DictOf(c), k) == Lookup(Dict(n.tree), k)
  {
    hide Node.Valid;
    hide Node.Layout;
    hide Wf;
    hide Dict;
    hide CheckPrefixPartial;
    hide Path;
    hide Lookup;
    NodeParts(n);
    SearchStep(n.tree, p, k);
    MissIn(Dict(n.tree), k);
    NoneIn(k);
    c, next, q := Null, depth, p;
    var len := PartialMatch(n, k, depth);
    if len != Min(n.prefixLen, MAX_PREFIX_LEN) {
      return;
    }
    next := depth + n.prefixLen;
    if next >= |k| {
      return;
    }
    c := ChildOf(n, p, k[next]);
    q := Path(n.tree, p) + [k[next]];
    next := next + 1;
  }

  /** Following the child pointer for a byte. */
  lemma EnterKid(n: Node, p: seq<Byte>, b: Byte, slot: nat)
    requires n.Valid() && n.tree.Inner? && Wf(n.tree, p) && n.Layout() && n.SlotOf(b, slot) && n.children[slot] != Null
    ensures b in n.tree.kids && n.children[slot] == n.kids[b]
    ensures var c := n.children[slot];
            && ValidPtr(c) && TreeOf(c) == n.tree.kids[b] && DictOf(c) == Dict(n.tree.kids[b])
            && Wf(TreeOf(c), Path(n.tree, p) + [b]) && |Path(n.tree, p)| == |p| + n.tree.prefixLen
            && Foot(c) <= n.Repr - n.Own() && n in n.Repr
  {
    hide Node.Valid;
    hide Wf;
    hide Dict;
    SlotHasKid(n, b, slot);
    NodeKid(n, b);
    KidWf(n.tree, p, b);
  }

  lemma PtrNode(c: Ptr)
    requires c.ToNode? && ValidPtr(c)
    ensures c.node.Valid() && c.node in c.node.Repr
  {
  }

  lemma MissIn(m: map<seq<Byte>, Value>, k: seq<Byte>)
    ensures k !in m ==> Lookup(m, k) == None
  {
  }

  lemma NoneIn(k: seq<Byte>)
    ensures Lookup(map[], k) == None
  {
  }

  lemma LeafLookup(key: seq<Byte>, value: Value, k: seq<Byte>)
    ensures Lookup(Dict(Leaf(key, value)), k) == if key == k then Some(value) else None
  {
  }

  lemma LeafMatches(k: seq<Byte>, v: Value, pre: seq<Byte>, max: nat)
    requires max > 0
    ensures FirstMatches([], WithPrefix(Entries(Leaf(k, v)), pre), max) == if pre <= k then [MatchOf(k)] else []
  {
    var es := Entries(Leaf(k, v));
    assert es == [(k, v)] && es[1..] == [];
    assert [(k, v)] + [] == [(k, v)];
  }

  /** `struct art_iterator`. The ghost fields record the trees the queued nodes lead to, what the
      caller has been given, and what the tree held when the iterator was created. */
  class Iterator {
    const tree: Tree
    var que: seq<Ptr>
    var count: nat
    var key: seq<Byte>
    var value: Value
    ghost var trees: seq<ArtTree.Tree>
    ghost var returned: seq<Entry>
    ghost const all: seq<Entry>
    ghost const objects: set<object>

    /** The tree has not changed, and what was returned and what is still to come make it up:
        everything at first, later the leaves below the queued nodes. */
    ghost predicate Valid()
      reads this, tree, if tree.root.ToNode? then {tree.root.node} else if tree.root.ToLeaf? then {tree.root.leaf} else {},
            Foot(tree.root), objects
    {
      && tree.Valid()
      && tree.InOrder() == all && Foot(tree.root) == objects
      && (if count == 0 then que == [] && returned == [] && this !in objects else Running())
    }

    /** The invariant once the root has been queued. */
    ghost predicate Running()
      reads this, objects
    {
      && this !in objects
      && count == |returned|
      && Queue(que, trees, objects)
      && multiset(returned) + Pending(trees) == multiset(all)
    }

    /** `pgvictoria_art_iterator_create`. */
    constructor (tree: Tree)
      requires tree.Valid()
      ensures Valid() && this.tree == tree && all == tree.InOrder() && returned == []
    {
      this.tree := tree;
      que := [];
      count := 0;
      key := [];
      value := Value(0, 0);
      trees := [];
      returned := [];
      all := tree.InOrder();
      objects := Foot(tree.root);
    }

    /** A polled leaf is the next entry. */
    method TakeLeaf()
      requires Running() && que != [] && que[0].ToLeaf?
      modifies this
      ensures Running() && returned == old(returned) + [(key, value)]
    {
      hide Entries;
      hide Leads;
      hide Queue;
      hide Pending;
      hide TotalWeight;
      hide Weight;
      QueueHead(que, trees, objects);
      var leaf := que[0].leaf;
      ghost var t, rest := trees[0], trees[1..];
      LeadsValid(que[0], t, objects);
      LeafEntries(t);
      OneMore(returned, (t.key, t.value), Pending(rest));
      que, trees, key, value, count, returned :=
        que[1..], rest, leaf.key, leaf.value, count + 1, returned + [(t.key, t.value)];
    }

    /** A polled inner node makes room for its children. */
    method Expand()
      requires Running() && que != [] && que[0].ToNode?
      modifies this`que, this`trees
      ensures Running() && TotalWeight(trees) < old(TotalWeight(trees))
    {
      hide Node.Valid;
      hide Node.Layout;
      hide Entries;
      hide Leads;
      hide Queue;
      hide Pending;
      hide TotalWeight;
      hide Weight;
      hide KidsFrom;
      QueueHead(que, trees, objects);
      LeadsValid(que[0], trees[0], objects);
      NodeParts(que[0].node);
      QueueExpand(returned, trees, all);
      ghost var next := trees[1..] + KidsFrom(trees[0], 0);
      var q := PollNode(que, trees, objects);
      que, trees := q, next;
    }

    /** `pgvictoria_art_iterator_next`: one more entry, or false when all have been returned. */
    method Next() returns (more: bool)
      requires Valid()
      modifies this
      ensures Valid()
      ensures more <==> old(|returned|) < |all|
      ensures more ==> returned == old(returned) + [(key, value)]
      ensures !more ==> returned == old(returned) && multiset(returned) == multiset(all)
    {
      hide Tree.Valid;
      hide Tree.InOrder;
      hide Queue;
      hide Pending;
      hide TotalWeight;
      hide Weight;
      InOrderSize(tree);
      if count == tree.size {
        EndReached();
        return false;
      }
      if count == 0 {
        RootQueued(tree);
        que, trees := que + [tree.root], [TreeOf(tree.root)];
        assert que == [tree.root] && multiset(returned) == multiset{};
        assert multiset(returned) + Pending(trees) == multiset(all);
      }
      more := Advance();
    }

    lemma EndReached()
      requires Valid() && count == |all|
      ensures |returned| == |all| && multiset(returned) == multiset(all)
    {
      if count == 0 {
        assert returned == all;
      } else {
        AllReturned(returned, Pending(trees), all);
      }
    }

    method Advance() returns (more: bool)
      requires Running()
      modifies this
      ensures Running()
      ensures more <==> old(|returned|) < |all|
      ensures more ==> returned == old(returned) + [(key, value)]
      ensures !more ==> returned == old(returned) && multiset(returned) == multiset(all)
    {
      hide Queue;
      hide Pending;
      hide TotalWeight;
      hide Weight;
      while que != []
        invariant Running() && returned == old(returned)
        decreases TotalWeight(trees)
      {
        HeadIsNode(que, trees, objects);
        if que[0].ToLeaf? {
          TakeLeaf();
          AllReturned(returned, Pending(trees), all);
          return true;
        }
        Expand();
      }
      QueueEmpty(que, trees, objects);
      AllReturned(returned, Pending(trees), all);
      return false;
    }

    /** `pgvictoria_art_iterator_has_next`. */
    method HasNext() returns (more: bool)
      requires Valid()
      ensures more <==> |returned| < |all|
    {
      InOrderSize(tree);
      more := count < tree.size;
    }
  }

  lemma LeafEntries(t: ArtTree.Tree)
    requires t.Leaf?
    ensures Entries(t) == [(t.key, t.value)]
  {
  }

  lemma QueueHead(que: seq<Ptr>, ts: seq<ArtTree.Tree>, R: set<object>)
    requires Queue(que, ts, R) && que != []
    ensures ts != [] && Leads(que[0], ts[0], R) && Queue(que[1..], ts[1..], R)
    ensures Pending(ts) == multiset(Entries(ts[0])) + Pending(ts[1..])
    ensures TotalWeight(ts) == Weight(ts[0]) + TotalWeight(ts[1..]) && Weight(ts[0]) > 0
  {
    hide Leads;
  }

  lemma OneMore(returned: seq<Entry>, e: Entry, rest: multiset<Entry>)
    ensures multiset(returned + [e]) + rest == multiset(returned) + (multiset([e]) + rest)
  {
  }

  lemma HeadIsNode(que: seq<Ptr>, ts: seq<ArtTree.Tree>, R: set<object>)
    requires Queue(que, ts, R) && que != []
    ensures que[0] != Null
  {
    QueueHead(que, ts, R);
  }

  /** Polling an inner node and appending its children. */
  method PollNode(que: seq<Ptr>, ghost ts: seq<ArtTree.Tree>, ghost R: set<object>) returns (out: seq<Ptr>)
    requires Queue(que, ts, R) && que != [] && que[0].ToNode? && ts != [] && ts[0].Inner?
    ensures Queue(out, ts[1..] + KidsFrom(ts[0], 0), R)
  {
    hide Node.Valid;
    hide Node.Layout;
    hide Leads;
    hide Queue;
    hide KidsFrom;
    hide Pending;
    hide TotalWeight;
    QueueHead(que, ts, R);
    LeadsValid(que[0], ts[0], R);
    var node := que[0].node;
    NodeParts(node);
    out := EnqueueKids(node, que[1..], ts[1..], R);
  }

  lemma QueueExpand(returned: seq<Entry>, ts: seq<ArtTree.Tree>, all: seq<Entry>)
    requires ts != [] && ts[0].Inner? && multiset(returned) + Pending(ts) == multiset(all)
    ensures multiset(returned) + Pending(ts[1..] + KidsFrom(ts[0], 0)) == multiset(all)
    ensures TotalWeight(ts[1..] + KidsFrom(ts[0], 0)) < TotalWeight(ts)
  {
    hide Entries;
    hide KidsFrom;
    hide Weight;
    QueueGrows(ts[0], ts[1..]);
  }

  lemma QueueEmpty(que: seq<Ptr>, ts: seq<ArtTree.Tree>, R: set<object>)
    requires Queue(que, ts, R) && que == []
    ensures Pending(ts) == multiset{}
  {
  }

  lemma QueueGrows(t: ArtTree.Tree, q: seq<ArtTree.Tree>)
    requires t.Inner?
    ensures Pending(q + KidsFrom(t, 0)) == multiset(Entries(t)) + Pending(q)
    ensures TotalWeight(q + KidsFrom(t, 0)) < Weight(t) + TotalWeight(q)
  {
    EntriesInner(t);
    PendingConcat(q, KidsFrom(t, 0));
    PendingKids(t, 0);
    TotalWeightConcat(q, KidsFrom(t, 0));
    WeightKids(t, 0);
  }

  lemma RootQueued(tree: Tree)
    requires tree.Valid() && tree.size != 0
    ensures tree.root != Null && Leads(tree.root, TreeOf(tree.root), Foot(tree.root))
    ensures Pending([TreeOf(tree.root)]) == multiset(tree.InOrder())
    ensures Queue([tree.root], [TreeOf(tree.root)], Foot(tree.root))
  {
    LeadsOwn(tree.root, Foot(tree.root));
    var t := TreeOf(tree.root);
    assert [t][1..] == [];
    assert Pending([t]) == multiset(Entries(t)) + Pending([]);
  }

  /** As many entries as keys. */
  lemma InOrderSize(tree: Tree)
    requires tree.Valid()
    ensures |tree.InOrder()| == tree.size
  {
    tree.InOrderIsSorted();
    ListSize(tree.InOrder(), tree.Contents());
  }

  lemma ListSize(es: seq<Entry>, m: map<seq<Byte>, Value>)
    requires Lists(es, m) && Increasing(es)
    ensures |es| == |m|
  {
    var ks := KeySet(es);
    assert ks == m.Keys;
  }

  lemma {:induction false} KeySet(es: seq<Entry>) returns (ks: set<seq<Byte>>)
    requires Increasing(es)
    ensures |ks| == |es| && forall k :: k in ks <==> exists i :: 0 <= i < |es| && es[i].0 == k
  {
    if es == [] {
      ks := {};
    } else {
      var n := |es| - 1;
      var before := KeySet(es[..n]);
      if es[n].0 in before {
        var i :| 0 <= i < n && es[..n][i].0 == es[n].0;
        LexLessAsymmetric(es[i].0, es[n].0);
      }
      ks := before + {es[n].0};
      forall k | k in ks ensures exists i :: 0 <= i < |es| && es[i].0 == k {
        if k in before {
          var i :| 0 <= i < n && es[..n][i].0 == k;
          assert es[i].0 == k;
        } else {
          assert es[n].0 == k;
        }
      }
      forall i | 0 <= i < |es| ensures es[i].0 in ks {
        if i < n {
          assert es[..n][i].0 == es[i].0;
        }
      }
    }
  }

  lemma AllReturned(returned: seq<Entry>, rest: multiset<Entry>, all: seq<Entry>)
    requires multiset(returned) + rest == multiset(all)
    ensures |returned| <= |all|
    ensures |returned| == |all| || rest == multiset{} ==> |returned| == |all| && multiset(returned) == multiset(all)
  {
    assert |multiset(all)| == |all| && |multiset(returned)| == |returned|;
    assert |multiset(returned) + rest| == |returned| + |rest|;
    if |rest| == 0 {
      assert rest == multiset{};
      assert multiset(returned) + rest == multiset(returned);
    }
  }
}
