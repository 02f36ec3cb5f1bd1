// The nodes of art.c in memory: four layouts behind one interface. Adding and removing a child
// shift the arrays in place and move to the next larger or smaller layout at the same fill levels
// as the C code; what they do to the byte-to-child map is in their postconditions.

module ArtNode {
  import opened Bytes
  import opened Collections
  import opened Values
  import opened ArtTree
  import opened ArtLayout

  datatype Kind = Node4 | Node16 | Node48 | Node256

  /** A `struct art_node*`: no node, or a leaf, or an inner node. */
  datatype Ptr = Null | ToLeaf(leaf: LeafNode) | ToNode(node: Node)

  /** `struct art_leaf`. The value is replaced in place when its key is inserted again. */
  class LeafNode {
    const key: seq<Byte>
    var value: Value

    constructor (key: seq<Byte>, value: Value)
      ensures this.key == key && this.value == value
    {
      this.key := key;
      this.value := value;
    }
  }

  /** The objects a pointer leads to. */
  ghost function Foot(c: Ptr): set<object>
    reads if c.ToNode? then {c.node} else {}
  {
    match c
    case Null => {}
    case ToLeaf(l) => {l}
    case ToNode(n) => n.Repr
  }

  /** `c` leads to the tree `t`, built from objects of `R`. */
  ghost predicate Leads(c: Ptr, t: Tree, R: set<object>)
    reads R
    ensures Leads(c, t, R) && c.ToNode? ==> c.node in R && c.node.Repr <= R
    ensures Leads(c, t, R) ==> c != Null
    decreases R, 1
  {
    match c
    case Null => false
    case ToLeaf(l) => l in R && t == Leaf(l.key, l.value)
    case ToNode(n) => n in R && n.Repr <= R && n.Valid() && n.tree == t
  }

  /** The children of a node lead to the subtrees `ts`, built from disjoint parts of `R`. */
  ghost predicate Kids(kids: map<Byte, Ptr>, ts: map<Byte, Tree>, R: set<object>)
    reads R
    decreases R, 2
  {
    && kids.Keys == ts.Keys
    && (forall b: Byte :: b in kids ==> Leads(kids[b], ts[b], R))
    && (forall a: Byte, b: Byte :: a in kids && b in kids && a != b ==> Foot(kids[a]) !! Foot(kids[b]))
  }

  function KeyCapacity(kind: Kind): nat {
    match kind
    case Node4 => 4
    case Node16 => 16
    case Node48 => 256
    case Node256 => 0
  }

  function ChildCapacity(kind: Kind): nat {
    match kind
    case Node4 => 4
    case Node16 => 16
    case Node48 => 48
    case Node256 => 256
  }

  /** The fill levels a node of each layout rests at between operations. */
  predicate Resting(kind: Kind, n: nat) {
    match kind
    case Node4 => 2 <= n <= 4
    case Node16 => 4 <= n <= 16
    case Node48 => 13 <= n <= 48
    case Node256 => 38 <= n <= 256
  }

  /** `find_index`: the last position whose key is at most `ch`, or -1. */
  method FindIndex(ch: Byte, keys: array<Byte>, length: nat) returns (index: int)
    requires length <= keys.Length && StrictlySorted(keys[..length])
    ensures -1 <= index < length
    ensures forall j :: 0 <= j <= index ==> keys[j] <= ch
    ensures forall j :: index < j < length ==> ch < keys[j]
  {
    var left, right := 0, length - 1;
    if length == 0 {
      return -1;
    }
    assert forall i, j :: 0 <= i < j < length ==> keys[..length][i] < keys[..length][j];
    while left + 1 < right
      invariant 0 <= left <= right < length
      invariant left == 0 || keys[left] < ch
      invariant forall j :: 0 <= j < left ==> keys[j] < ch
      invariant forall j :: right < j < length ==> ch < keys[j]
    {
      var mid := (left + right) / 2;
      if keys[mid] == ch {
        return mid;
      }
      if keys[mid] < ch {
        left := mid;
      } else {
        right := mid;
      }
    }
    if keys[right] <= ch {
      return right;
    } else if keys[left] <= ch {
      return left;
    }
    return -1;
  }

  class Node {
    const kind: Kind
    var prefixLen: nat
    var numChildren: Byte
    const prefix: array<Byte>
    const keys: array<Byte>
    const children: array<Ptr>

    // The byte-to-child map, and for Node48 the byte that uses each slot.
    ghost var kids: map<Byte, Ptr>
    ghost var owner: seq<Byte>

    // The tree below this node, and the objects it is made of.
    ghost var tree: Tree
    ghost var Repr: set<object>

    ghost function Own(): set<object> {
      {this, prefix, keys, children}
    }

    /** The arrays spell the byte-to-child map, in the way of this node's layout. */
    ghost predicate Layout()
      reads this, keys, children
    {
      && prefix.Length == MAX_PREFIX_LEN && prefix != keys
      && keys.Length == KeyCapacity(kind) && children.Length == ChildCapacity(kind) && |owner| == 48
      && numChildren == |kids| % 256 && |kids| <= ChildCapacity(kind)
      && (forall b: Byte :: b in kids ==> kids[b] != Null)
      && (SortedKind() ==> SortedPairs(keys[..numChildren], children[..numChildren], kids))
      && (kind == Node48 ==> Indexed(keys[..], children[..], owner, Null, kids))
      && (kind == Node256 ==> Direct(children[..], Null, kids))
    }

    /** What the operations that choose a layout need to know of it. */
    lemma Counted()
      requires Layout()
      ensures prefix.Length == MAX_PREFIX_LEN && prefix != keys
      ensures numChildren == |kids| % 256 && |kids| <= ChildCapacity(kind) == children.Length
      ensures kind != Node256 ==> numChildren == |kids|
    {
    }

    ghost predicate SortedKind() {
      kind == Node4 || kind == Node16
    }

    /** The bytes of the path that the node stores. */
    ghost function Stored(): seq<Byte>
      reads this, prefix
      requires prefix.Length == MAX_PREFIX_LEN
    {
      prefix[..Min(prefixLen, MAX_PREFIX_LEN)]
    }

    /** The node, with everything below it, is the tree `tree`. */
    ghost predicate Valid()
      reads this, Repr
      ensures Valid() ==> this in Repr
      decreases Repr, 0
    {
      && Own() <= Repr
      && Layout() && Resting(kind, |kids|)
      && tree.Inner? && tree.prefixLen == prefixLen && tree.stored == Stored()
      && Kids(kids, tree.kids, Repr - Own())
    }

    /** `create_art_node`: an empty node of a layout. */
    constructor (kind: Kind)
      ensures Layout() && this.kind == kind && kids == map[] && prefixLen == 0
      ensures fresh(prefix) && fresh(keys) && fresh(children)
      ensures forall i :: 0 <= i < keys.Length ==> keys[i] == 0
      ensures forall i :: 0 <= i < children.Length ==> children[i] == Null
    {
      this.kind := kind;
      prefixLen := 0;
      numChildren := 0;
      prefix := new Byte[MAX_PREFIX_LEN](_ => 0);
      keys := new Byte[KeyCapacity(kind)](_ => 0);
      children := new Ptr[ChildCapacity(kind)](_ => Null);
      kids := map[];
      owner := seq(48, _ => 0);
    }

    /** `copy_header`. */
    method CopyHeader(src: Node)
      requires prefix.Length == MAX_PREFIX_LEN && src.prefix.Length == MAX_PREFIX_LEN && prefix != src.prefix
      modifies this`prefixLen, this`numChildren, prefix
      ensures prefixLen == src.prefixLen && numChildren == src.numChildren && Stored() == src.Stored()
    {
      numChildren := src.numChildren;
      prefixLen := src.prefixLen;
      CopyFirst(prefix, src.prefix, Min(MAX_PREFIX_LEN, src.prefixLen));
    }

    /** A node of another layout with this node's header and no children yet. */
    method Replacement(to: Kind) returns (n: Node)
      requires Layout()
      ensures fresh(n.Own()) && n.kind == to && |n.owner| == 48
      ensures n.prefix.Length == MAX_PREFIX_LEN && n.prefix != n.keys
      ensures n.keys.Length == KeyCapacity(to) && n.children.Length == ChildCapacity(to)
      ensures forall i :: 0 <= i < n.keys.Length ==> n.keys[i] == 0
      ensures forall i :: 0 <= i < n.children.Length ==> n.children[i] == Null
      ensures n.prefixLen == prefixLen && n.numChildren == numChildren && n.Stored() == Stored()
    {
      n := new Node(to);
      n.CopyHeader(this);
    }

    /** `node_get_child`: the slot for a byte, or -1. A Node256 has a slot for every byte, which
        may be empty. */
    method GetChild(ch: Byte) returns (slot: int)
      requires Layout()
      ensures -1 <= slot < children.Length
      ensures slot == -1 ==> ch !in kids
      ensures slot >= 0 ==> SlotOf(ch, slot)
      ensures slot >= 0 && kind != Node256 ==> ch in kids
    {
      match kind {
        case Node48 =>
          if keys[ch] == 0 {
            return -1;
          }
          return keys[ch] - 1;
        case Node256 =>
          return ch;
        case _ =>
          slot := GetSorted(ch);
      }
    }

    /** The binary search of `node_get_child` in a Node4 or Node16. */
    method GetSorted(ch: Byte) returns (slot: int)
      requires Layout() && SortedKind()
      ensures -1 <= slot < numChildren
      ensures slot == -1 ==> ch !in kids
      ensures slot >= 0 ==> ch in kids && keys[slot] == ch && children[slot] == kids[ch]
    {
      ghost var ks, cs := keys[..numChildren], children[..numChildren];
      slot := FindIndex(ch, keys, numChildren);
      if ch in kids {
        FoundIndex(ks, cs, kids, ch, slot);
      }
      if slot == -1 || keys[slot] != ch {
        return -1;
      }
      assert ks[slot] == ch && cs[slot] == children[slot];
    }

    /** `slot` is where the child for `ch` is, or would be in a Node256. */
    ghost predicate SlotOf(ch: Byte, slot: nat)
      reads this, keys, children
      requires Layout()
    {
      && slot < children.Length
      && (ch in kids ==> children[slot] == kids[ch])
      && (ch !in kids ==> children[slot] == Null)
      && match kind {
           case Node48 => keys[ch] == slot + 1
           case Node256 => slot == ch
           case _ => slot < numChildren && keys[slot] == ch
         }
    }

    /** Writing a child pointer through the reference that `GetChild` found. */
    method PutChild(ch: Byte, slot: nat, c: Ptr)
      requires Layout() && SlotOf(ch, slot) && ch in kids && c != Null
      modifies this`kids, children
      ensures Layout() && kids == old(kids)[ch := c]
    {
      hide SortedPairs;
      hide Indexed;
      hide Direct;
      ghost var was := children[..];
      assert kids[ch := c].Keys == kids.Keys;
      assert |kids[ch := c].Keys| == |kids.Keys|;
      match kind {
        case Node48 =>
          IndexUpdated(keys[..], was, owner, Null, kids, ch, c);
        case Node256 =>
          DirectSet(was, Null, kids, ch, c);
        case _ =>
          PairUpdated(keys[..numChildren], was[..numChildren], kids, slot, c);
          assert was[slot := c][..numChildren] == was[..numChildren][slot := c];
      }
      Store(children, slot, c);
      kids := kids[ch := c];
    }

    /** The in-place part of `node4_add_child` and `node16_add_child`. */
    method AddSorted(ch: Byte, c: Ptr)
      requires Layout() && SortedKind() && ch !in kids && c != Null && numChildren < children.Length
      modifies this`numChildren, this`kids, keys, children
      ensures Layout() && kids == old(kids)[ch := c]
    {
      hide SortedPairs;
      hide Indexed;
      hide Direct;
      hide InsertAt;
      PairsSorted(keys[..numChildren], children[..numChildren], kids);
      var idx := FindIndex(ch, keys, numChildren);
      PairInserted(keys[..numChildren], children[..numChildren], kids, idx + 1, ch, c);
      ShiftIn(keys, numChildren, idx + 1, ch);
      ShiftIn(children, numChildren, idx + 1, c);
      numChildren := numChildren + 1;
      kids := kids[ch := c];
    }

    /** The in-place part of `node48_add_child`: the first empty slot, since removals leave gaps. */
    method AddIndexed(ch: Byte, c: Ptr)
      requires Layout() && kind == Node48 && ch !in kids && c != Null && numChildren < 48
      modifies this`numChildren, this`kids, this`owner, keys, children
      ensures Layout() && kids == old(kids)[ch := c]
    {
      hide SortedPairs;
      hide Indexed;
      hide Direct;
      FreeSlot(keys[..], children[..], owner, Null, kids);
      var pos := 0;
      while children[pos] != Null
        invariant 0 <= pos < 48
        invariant exists s :: pos <= s < 48 && children[..][s] == Null
        decreases 48 - pos
      {
        pos := pos + 1;
      }
      IndexAdded(keys[..], children[..], owner, Null, kids, ch, pos, c);
      Store(children, pos, c);
      Store(keys, ch, pos + 1);
      owner := owner[pos := ch];
      numChildren := numChildren + 1;
      kids := kids[ch := c];
    }

    /** `node256_add_child`. The child count is one byte wide, so a full node counts zero. */
    method AddDirect(ch: Byte, c: Ptr)
      requires Layout() && kind == Node256 && ch !in kids && c != Null
      modifies this`numChildren, this`kids, children
      ensures Layout() && kids == old(kids)[ch := c]
    {
      hide SortedPairs;
      hide Indexed;
      hide Direct;
      DirectSet(children[..], Null, kids, ch, c);
      numChildren := (numChildren + 1) % 256;
      Store(children, ch, c);
      kids := kids[ch := c];
      BytesSize(kids.Keys, 256);
    }

    /** Node4 to Node16: the arrays are copied. Node16 to Node4 copies the same way. */
    method CopySorted(to: Kind) returns (n: Node)
      requires Layout() && SortedKind() && (to == Node4 || to == Node16) && numChildren <= ChildCapacity(to)
      ensures fresh(n.Own()) && n.kind == to && n.Layout() && n.kids == kids
      ensures n.prefixLen == prefixLen && n.Stored() == Stored()
    {
      hide SortedPairs;
      hide Indexed;
      hide Direct;
      n := Replacement(to);
      CopyFirst(n.children, children, numChildren);
      CopyFirst(n.keys, keys, numChildren);
      n.kids := kids;
    }

    /** Node16 to Node48: a slot per child, and an index for each byte in use. */
    method GrowTo48() returns (n: Node)
      requires Layout() && kind == Node16
      ensures fresh(n.Own()) && n.kind == Node48 && n.Layout() && n.kids == kids
      ensures n.prefixLen == prefixLen && n.Stored() == Stored()
    {
      hide SortedPairs;
      hide Indexed;
      n := Replacement(Node48);
      n.owner := n.IndexSorted(this);
      n.kids := kids;
    }

    method IndexSorted(src: Node) returns (ghost owned: seq<Byte>)
      requires keys.Length == 256 && children.Length == 48 && src.Layout() && src.kind == Node16
      requires keys != src.keys && children != src.children
      requires forall b :: 0 <= b < 256 ==> keys[b] == 0
      requires forall s :: 0 <= s < 48 ==> children[s] == Null
      modifies keys, children
      ensures Indexed(keys[..], children[..], owned, Null, src.kids) && |owned| == 48
    {
      hide SortedPairs;
      hide Indexed;
      hide IndexesKeys;
      ghost var n: nat := src.numChildren;
      PairsSorted(src.keys[..n], src.children[..n], src.kids);
      CopyFirst(children, src.children, src.numChildren);
      ghost var slots := children[..];
      assert slots[..n] == children[..n];
      owned := IndexKeys(src.keys, src.numChildren);
      assert children[..] == slots;
      IndexedFromSorted(keys[..], slots, owned, Null, src.kids, src.keys[..n], src.children[..n]);
    }

    /** The loop that turns a sorted key array into an index array. */
    method IndexKeys(sorted: array<Byte>, n: nat) returns (ghost owned: seq<Byte>)
      requires keys.Length == 256 && sorted != keys && n <= sorted.Length && n <= 48
      requires StrictlySorted(sorted[..n]) && forall b :: 0 <= b < 256 ==> keys[b] == 0
      modifies keys
      ensures IndexesKeys(keys[..], owned, sorted[..n]) && |owned| == 48
    {
      ghost var ks := sorted[..n];
      owned := seq(48, _ => 0);
      var i := 0;
      while i < n
        invariant 0 <= i <= n && |owned| == 48
        invariant forall j :: 0 <= j < i ==> keys[ks[j]] == j + 1 && owned[j] == ks[j]
        invariant forall b: Byte :: keys[b] != 0 ==> keys[b] <= i && ks[keys[b] - 1] == b
        modifies keys
      {
        assert forall j :: 0 <= j < i ==> ks[j] < ks[i];
        assert sorted[i] == ks[i];
        keys[sorted[i]] := i + 1;
        owned := owned[i := ks[i]];
        i := i + 1;
      }
    }

    /** Node48 to Node256. */
    method GrowTo256() returns (n: Node)
      requires Layout() && kind == Node48
      ensures fresh(n.Own()) && n.kind == Node256 && n.Layout() && n.kids == kids
      ensures n.prefixLen == prefixLen && n.Stored() == Stored()
    {
      hide Indexed;
      hide Direct;
      n := Replacement(Node256);
      n.SpreadChildren(this);
      n.kids := kids;
    }

    /** The loop that moves the children of a Node48 to the slots of their bytes. */
    method SpreadChildren(src: Node)
      requires children.Length == 256 && src.Layout() && src.kind == Node48 && children != src.children
      requires forall b :: 0 <= b < 256 ==> children[b] == Null
      modifies children
      ensures Direct(children[..], Null, src.kids)
    {
      var i := 0;
      while i < 256
        invariant 0 <= i <= 256
        invariant forall b: Byte :: children[b] == if b < i && b in src.kids then src.kids[b] else Null
      {
        if src.keys[i] != 0 {
          children[i] := src.children[src.keys[i] - 1];
        }
        i := i + 1;
      }
    }

    /** `node_add_child`: the node itself, or the larger node that replaces it. */
    method AddChild(ch: Byte, c: Ptr) returns (n: Node)
      requires Layout() && ch !in kids && c != Null
      modifies this`numChildren, this`kids, this`owner, keys, children
      ensures n.Layout() && n.kids == old(kids)[ch := c]
      ensures n.prefixLen == prefixLen && n.prefix.Length == MAX_PREFIX_LEN && prefix.Length == MAX_PREFIX_LEN
      ensures n.Stored() == Stored()
      ensures n == this || fresh(n.Own())
      ensures n != this ==> old(|kids|) == ChildCapacity(kind)
      ensures old(|kids|) >= 1 ==> Resting(n.kind, |n.kids|) || old(!Resting(kind, |kids|))
      ensures n.kind == Node4 ==> n == this && |n.kids| <= 4
    {
      hide Layout;
      Counted();
      n := this;
      match kind {
        case Node4 =>
          if numChildren < 4 {
            AddSorted(ch, c);
          } else {
            n := CopySorted(Node16);
            n.Counted();
            n.AddSorted(ch, c);
          }
        case Node16 =>
          if numChildren < 16 {
            AddSorted(ch, c);
          } else {
            n := GrowTo48();
            n.Counted();
            n.AddIndexed(ch, c);
          }
        case Node48 =>
          if numChildren < 48 {
            AddIndexed(ch, c);
          } else {
            n := GrowTo256();
            n.AddDirect(ch, c);
          }
        case Node256 =>
          AddDirect(ch, c);
      }
      n.Counted();
    }

    method IndexOf(ch: Byte) returns (idx: nat)
      requires Layout() && SortedKind() && ch in kids
      ensures idx < numChildren && keys[idx] == ch
      ensures SortedPairs(RemoveAt(keys[..numChildren], idx), RemoveAt(children[..numChildren], idx), kids - {ch})
    {
      hide SortedPairs;
      hide RemoveAt;
      PairsSorted(keys[..numChildren], children[..numChildren], kids);
      var i := FindIndex(ch, keys, numChildren);
      FoundIndex(keys[..numChildren], children[..numChildren], kids, ch, i);
      PairRemoved(keys[..numChildren], children[..numChildren], kids, i);
      idx := i;
    }

    /** The in-place part of `node4_remove_child` and `node16_remove_child`. */
    method RemoveSorted(ch: Byte)
      requires Layout() && SortedKind() && ch in kids
      modifies this`numChildren, this`kids, keys, children
      ensures Layout() && kids == old(kids) - {ch}
    {
      hide SortedPairs;
      hide Indexed;
      hide Direct;
      hide RemoveAt;
      hide Layout;
      SortedParts();
      var idx := IndexOf(ch);
      ghost var rest := kids - {ch};
      ghost var ks, cs := RemoveAt(keys[..numChildren], idx), RemoveAt(children[..numChildren], idx);
      MapShrinks(kids, ch);
      ShiftBoth(idx);
      numChildren, kids := numChildren - 1, rest;
      assert keys[..numChildren] == ks && children[..numChildren] == cs;
      SortedLayout();
    }

    /** What makes a layout of the two sorted kinds. */
    lemma SortedLayout()
      requires SortedKind()
      requires prefix.Length == MAX_PREFIX_LEN && prefix != keys
      requires keys.Length == KeyCapacity(kind) && children.Length == ChildCapacity(kind) && |owner| == 48
      requires numChildren == |kids| && |kids| <= ChildCapacity(kind)
      requires forall b: Byte :: b in kids ==> kids[b] != Null
      requires SortedPairs(keys[..numChildren], children[..numChildren], kids)
      ensures Layout()
    {
    }

    lemma SortedParts()
      requires Layout() && SortedKind()
      ensures prefix.Length == MAX_PREFIX_LEN && prefix != keys
      ensures keys.Length == KeyCapacity(kind) && children.Length == ChildCapacity(kind) && |owner| == 48
      ensures numChildren == |kids| && |kids| <= ChildCapacity(kind)
      ensures forall b: Byte :: b in kids ==> kids[b] != Null
    {
    }

    method ShiftBoth(idx: nat)
      requires idx < numChildren && numChildren <= keys.Length == children.Length
      modifies keys, children
      ensures keys[..numChildren - 1] == RemoveAt(old(keys[..numChildren]), idx)
      ensures children[..numChildren - 1] == RemoveAt(old(children[..numChildren]), idx)
    {
      ShiftOut(keys, numChildren, idx);
      ShiftOut(children, numChildren, idx);
    }

    /** The in-place part of `node48_remove_child`. */
    method RemoveIndexed(ch: Byte)
      requires Layout() && kind == Node48 && ch in kids
      modifies this`numChildren, this`kids, keys, children
      ensures Layout() && kids == old(kids) - {ch}
    {
      hide SortedPairs;
      hide Indexed;
      hide Direct;
      IndexRemoved(keys[..], children[..], owner, Null, kids, ch);
      MapShrinks(kids, ch);
      var idx := keys[ch];
      Store(children, idx - 1, Null);
      Store(keys, ch, 0);
      numChildren := numChildren - 1;
      kids := kids - {ch};
    }

    /** The in-place part of `node256_remove_child`. */
    method RemoveDirect(ch: Byte)
      requires Layout() && kind == Node256 && ch in kids
      modifies this`numChildren, this`kids, children
      ensures Layout() && kids == old(kids) - {ch}
    {
      hide SortedPairs;
      hide Indexed;
      hide Direct;
      DirectCleared(children[..], Null, kids, ch);
      MapShrinks(kids, ch);
      Store(children, ch, Null);
      numChildren := if numChildren == 0 then 255 else numChildren - 1;
      kids := kids - {ch};
    }

    /** Node48 to Node16: the children in byte order. */
    method ShrinkTo16() returns (n: Node)
      requires Layout() && kind == Node48 && |kids| <= 16
      ensures fresh(n.Own()) && n.kind == Node16 && n.Layout() && n.kids == kids
      ensures n.prefixLen == prefixLen && n.Stored() == Stored()
    {
      hide SortedPairs;
      hide Indexed;
      n := Replacement(Node16);
      n.CollectSorted(this);
      n.kids := kids;
    }

    /** The loop that lists the children of a Node48 in byte order. */
    method CollectSorted(src: Node)
      requires keys.Length == children.Length == 16 && src.Layout() && src.kind == Node48 && |src.kids| <= 16
      requires keys != src.keys && children != src.children
      modifies keys, children
      ensures SortedPairs(keys[..|src.kids|], children[..|src.kids|], src.kids)
    {
      hide SortedPairs;
      hide Below;
      var cnt := 0;
      var i := 0;
      BelowNone(src.kids);
      while i < 256
        invariant 0 <= i <= 256 && 0 <= cnt <= 16
        invariant SortedPairs(keys[..cnt], children[..cnt], Below(src.kids, i))
      {
        if src.keys[i] != 0 {
          NextPair(keys[..cnt], children[..cnt], src.kids, i);
          Append(children, cnt, src.children[src.keys[i] - 1]);
          Append(keys, cnt, i);
          cnt := cnt + 1;
        } else {
          BelowNext(src.kids, i);
        }
        i := i + 1;
      }
      BelowSize(src.kids, 256);
      PairCount(keys[..cnt], children[..cnt], src.kids);
    }

    /** Node256 to Node48: slots are handed out in byte order. */
    method ShrinkTo48() returns (n: Node)
      requires Layout() && kind == Node256 && |kids| <= 48
      ensures fresh(n.Own()) && n.kind == Node48 && n.Layout() && n.kids == kids
      ensures n.prefixLen == prefixLen && n.Stored() == Stored()
    {
      hide Indexed;
      hide Direct;
      n := Replacement(Node48);
      n.owner := n.CollectIndexed(this);
      n.kids := kids;
    }

    /** The loop that gives each child of a Node256 a slot. */
    method CollectIndexed(src: Node) returns (ghost owned: seq<Byte>)
      requires keys.Length == 256 && children.Length == 48 && src.Layout() && src.kind == Node256 && |src.kids| <= 48
      requires keys != src.keys && children != src.children
      requires forall b :: 0 <= b < 256 ==> keys[b] == 0
      requires forall s :: 0 <= s < 48 ==> children[s] == Null
      modifies keys, children
      ensures Indexed(keys[..], children[..], owned, Null, src.kids) && |owned| == 48
    {
      hide Indexed;
      hide Below;
      var cnt := 0;
      var i := 0;
      BelowNone(src.kids);
      owned := seq(48, _ => 0);
      IndexedNone(keys[..], children[..], owned, Null);
      while i < 256
        invariant 0 <= i <= 256 && cnt == |Below(src.kids, i)| && |owned| == 48
        invariant Indexed(keys[..], children[..], owned, Null, Below(src.kids, i))
        invariant forall s :: cnt <= s < 48 ==> children[..][s] == Null
      {
        BelowNext(src.kids, i);
        BelowSize(src.kids, i + 1);
        if src.children[i] != Null {
          BelowMember(src.kids, i);
          IndexAdded(keys[..], children[..], owned, Null, Below(src.kids, i), i, cnt, src.children[i]);
          Store(keys, i, cnt + 1);
          Store(children, cnt, src.children[i]);
          owned := owned[cnt := i];
          cnt := cnt + 1;
        }
        i := i + 1;
      }
      BelowSize(src.kids, 256);
    }

    /** `node_remove_child`, without the merge of a Node4 with its last child: the node itself, or
        the smaller node that replaces it. */
    method RemoveChild(ch: Byte) returns (n: Node)
      requires Layout() && Resting(kind, |kids|) && ch in kids
      modifies this`numChildren, this`kids, keys, children
      ensures n.Layout() && n.kids == old(kids) - {ch}
      ensures n.prefixLen == prefixLen && n.prefix.Length == MAX_PREFIX_LEN && prefix.Length == MAX_PREFIX_LEN
      ensures n.Stored() == Stored()
      ensures n == this || fresh(n.Own())
      ensures Resting(n.kind, |n.kids|) || (n == this && n.kind == Node4 && |n.kids| == 1)
      ensures |n.kids| == old(|kids|) - 1
    {
      hide Layout;
      Counted();
      n := this;
      MapShrinks(kids, ch);
      match kind {
        case Node4 =>
          RemoveSorted(ch);
        case Node16 =>
          RemoveSorted(ch);
          Counted();
          if numChildren <= 3 {
            n := CopySorted(Node4);
          }
        case Node48 =>
          RemoveIndexed(ch);
          Counted();
          if numChildren <= 12 {
            n := ShrinkTo16();
          }
        case Node256 =>
          RemoveDirect(ch);
          Counted();
          if numChildren <= 37 {
            n := ShrinkTo48();
          }
      }
      n.Counted();
    }

    /** The child `node_get_minimum` follows: the one with the least byte. */
    method FirstChild() returns (c: Ptr, ghost b: Byte)
      requires Layout() && |kids| > 0
      ensures b in kids && c == kids[b] && forall a: Byte :: a in kids ==> b <= a
    {
      ghost var some := SomeKey(kids);
      match kind {
        case Node48 =>
          var idx := 0;
          while keys[idx] == 0
            invariant 0 <= idx < 256 && forall a: Byte :: a in kids ==> idx <= a
            decreases 256 - idx
          {
            assert idx !in kids;
            idx := idx + 1;
            assert some in kids;
          }
          c, b := children[keys[idx] - 1], idx;
        case Node256 =>
          var idx := 0;
          while children[idx] == Null
            invariant 0 <= idx < 256 && forall a: Byte :: a in kids ==> idx <= a
            decreases 256 - idx
          {
            assert idx !in kids;
            idx := idx + 1;
            assert some in kids;
          }
          c, b := children[idx], idx;
        case _ =>
          c, b := children[0], keys[0];
          ghost var ks, cs := keys[..numChildren], children[..numChildren];
          assert ks[0] == b && cs[0] == c;
          forall a: Byte | a in kids ensures b <= a {
            PairsComplete(ks, cs, kids, a);
          }
      }
    }

    // ----- visiting the children in byte order -----

    /** How many steps a loop over the children takes: the child count of a Node4 or Node16, all
        256 bytes of a Node48 or Node256. */
    function Steps(): nat
      reads this
    {
      if kind == Node4 || kind == Node16 then numChildren else 256
    }

    /** The least byte that the first `i` steps have not covered. */
    ghost function Covered(i: nat): nat
      reads this, keys, children
      requires Layout() && i <= Steps()
    {
      if SortedKind() then (if i == 0 then 0 else keys[i - 1] + 1) else i
    }

    /** Step `i` of a loop over the children: the next child, or nothing at an unused byte. */
    method KidAt(i: nat) returns (c: Ptr, ghost b: Byte)
      requires Layout() && i < Steps()
      ensures c == Null ==> Covered(i) <= Covered(i + 1) && forall a: Byte :: a in kids && Covered(i) <= a ==> Covered(i + 1) <= a
      ensures c != Null ==>
                && b in kids && c == kids[b] && Covered(i) <= b && Covered(i + 1) == b + 1
                && forall a: Byte :: a in kids && Covered(i) <= a ==> b <= a
    {
      match kind {
        case Node48 =>
          b := i;
          c := if keys[i] == 0 then Null else children[keys[i] - 1];
        case Node256 =>
          b := i;
          c := children[i];
        case _ =>
          b := keys[i];
          c := children[i];
          ghost var ks, cs := keys[..numChildren], children[..numChildren];
          assert ks[i] == b && cs[i] == c;
          NextInOrder(ks, cs, kids, i);
          assert i > 0 ==> ks[i - 1] == keys[i - 1];
      }
    }

    lemma AllCovered(b: Byte)
      requires Layout() && b in kids
      ensures b < Covered(Steps())
    {
      if SortedKind() {
        ghost var ks := keys[..numChildren];
        PairsComplete(ks, children[..numChildren], kids, b);
        var j :| 0 <= j < |ks| && ks[j] == b;
        assert ks[j] <= ks[|ks| - 1];
      }
    }
  }
}
