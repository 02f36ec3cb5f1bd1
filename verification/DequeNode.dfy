// The nodes of a deque (deque.c), chains of them, and the merge sort on values: which order of the
// nodes the pointer splicing is to bring about, and that it is a stable sort by tag.

module DequeNode {
  import opened Bytes
  import opened Values

  type Tag = Option<seq<Byte>>

  /** `struct deque_node`; the tag and the data are never changed. */
  class Node {
    const tag: Tag
    const data: Value
    var next: Node?
    var prev: Node?

    /** `deque_node_create`: an empty tag is stored as no tag. */
    constructor (tag: Tag, data: Value)
      ensures this.tag == StoredTag(tag) && this.data == data && next == null && prev == null
    {
      this.tag := StoredTag(tag);
      this.data := data;
      next := null;
      prev := null;
    }
  }

  /** What copying a tag by appending it to nothing gives. */
  function StoredTag(tag: Tag): Tag {
    if tag.None? then None else CopyText(tag.value)
  }

  // ----- the order of tags -----

  /** `tag_compare`: no tag comes last, the others are in `strcmp` order. */
  function TagCompare(a: Tag, b: Tag): int {
    match (a, b)
    case (None, None) => 0
    case (None, Some(_)) => 1
    case (Some(_), None) => -1
    case (Some(s), Some(t)) => if s == t then 0 else if StrLess(s, t) then -1 else 1
  }

  predicate TagLe(a: Tag, b: Tag) {
    TagCompare(a, b) <= 0
  }

  /** The comparison is a total order on tags. */
  lemma TagOrder(a: Tag, b: Tag, c: Tag)
    ensures TagLe(a, a)
    ensures TagLe(a, b) || TagLe(b, a)
    ensures TagLe(a, b) && TagLe(b, a) ==> a == b
    ensures TagLe(a, b) && TagLe(b, c) ==> TagLe(a, c)
  {
    if a.Some? && b.Some? {
      StrLessTotal(a.value, b.value);
      StrLessIsLexLess(a.value, b.value);
      StrLessIsLexLess(b.value, a.value);
      if LexLess(a.value, b.value) { LexLessAsymmetric(a.value, b.value); }
      if c.Some? && StrLess(a.value, b.value) && StrLess(b.value, c.value) {
        StrLessTransitive(a.value, b.value, c.value);
        StrLessIsLexLess(a.value, c.value);
        LexLessAsymmetric(a.value, c.value);
      }
    }
  }

  // ----- the sort on values -----

  /** `deque_merge` on the sequences of nodes. */
  function Merged(a: seq<Node>, b: seq<Node>): seq<Node> {
    if a == [] then b
    else if b == [] then a
    else if TagLe(a[0].tag, b[0].tag) then [a[0]] + Merged(a[1..], b)
    else [b[0]] + Merged(a, b[1..])
  }

  /** `deque_sort` on the sequence of nodes. */
  function Sorting(s: seq<Node>): seq<Node> {
    if |s| <= 1 then s
    else Merged(Sorting(s[..|s| / 2]), Sorting(s[|s| / 2..]))
  }

  ghost predicate Ordered(s: seq<Node>) {
    forall i, j :: 0 <= i < j < |s| ==> TagLe(s[i].tag, s[j].tag)
  }

  /** The nodes with one tag, in order. */
  function WithTag(s: seq<Node>, t: Tag): seq<Node> {
    if s == [] then []
    else (if s[0].tag == t then [s[0]] else []) + WithTag(s[1..], t)
  }

  ghost predicate Below(t: Tag, s: seq<Node>) {
    forall i :: 0 <= i < |s| ==> TagLe(t, s[i].tag)
  }

  lemma OrderedFirst(x: Node, s: seq<Node>)
    requires Ordered(s) && Below(x.tag, s)
    ensures Ordered([x] + s)
  {
    hide TagLe;
  }

  lemma {:induction false} MergedBelow(t: Tag, a: seq<Node>, b: seq<Node>)
    requires Below(t, a) && Below(t, b)
    ensures Below(t, Merged(a, b))
    decreases |a| + |b|
  {
    hide TagLe;
    if a != [] && b != [] {
      if TagLe(a[0].tag, b[0].tag) {
        MergedBelow(t, a[1..], b);
      } else {
        MergedBelow(t, a, b[1..]);
      }
    }
  }

  lemma BelowBelow(t: Tag, u: Tag, s: seq<Node>)
    requires TagLe(t, u) && Below(u, s)
    ensures Below(t, s)
  {
    forall i | 0 <= i < |s| ensures TagLe(t, s[i].tag) { TagOrder(t, u, s[i].tag); }
  }

  lemma FirstBelow(s: seq<Node>)
    requires s != [] && Ordered(s)
    ensures Below(s[0].tag, s) && Below(s[0].tag, s[1..]) && Ordered(s[1..])
  {
    TagOrder(s[0].tag, s[0].tag, s[0].tag);
    hide TagLe;
  }

  lemma {:induction false} MergedOrdered(a: seq<Node>, b: seq<Node>)
    requires Ordered(a) && Ordered(b)
    ensures Ordered(Merged(a, b))
    decreases |a| + |b|
  {
    hide TagLe;
    hide Ordered;
    hide Below;
    if a != [] && b != [] {
      FirstBelow(a);
      FirstBelow(b);
      TagOrder(a[0].tag, b[0].tag, a[0].tag);
      if TagLe(a[0].tag, b[0].tag) {
        BelowBelow(a[0].tag, b[0].tag, b);
        MergedOrdered(a[1..], b);
        MergedBelow(a[0].tag, a[1..], b);
        OrderedFirst(a[0], Merged(a[1..], b));
      } else {
        BelowBelow(b[0].tag, a[0].tag, a);
        MergedOrdered(a, b[1..]);
        MergedBelow(b[0].tag, a, b[1..]);
        OrderedFirst(b[0], Merged(a, b[1..]));
      }
    }
  }

  /** The nodes come out in tag order, the ones without a tag last. */
  lemma {:induction false} SortingOrders(s: seq<Node>)
    ensures Ordered(Sorting(s))
    decreases |s|
  {
    if |s| > 1 {
      SortingOrders(s[..|s| / 2]);
      SortingOrders(s[|s| / 2..]);
      hide Ordered;
      MergedOrdered(Sorting(s[..|s| / 2]), Sorting(s[|s| / 2..]));
    }
  }

  /** What the order is: a node without a tag has only such nodes behind it, and of two tagged nodes the
      first has the same tag or the smaller one, compared as unsigned bytes. */
  ghost predicate TagsAscend(s: seq<Node>) {
    forall i, j :: 0 <= i < j < |s| ==>
      && (s[i].tag == None ==> s[j].tag == None)
      && (s[i].tag != None && s[j].tag != None ==> s[i].tag == s[j].tag || LexLess(s[i].tag.value, s[j].tag.value))
  }

  lemma OrderedAscends(s: seq<Node>)
    ensures Ordered(s) <==> TagsAscend(s)
  {
    forall i, j | 0 <= i < j < |s|
      ensures TagLe(s[i].tag, s[j].tag) <==>
              && (s[i].tag == None ==> s[j].tag == None)
              && (s[i].tag != None && s[j].tag != None ==> s[i].tag == s[j].tag || LexLess(s[i].tag.value, s[j].tag.value))
    {
      if s[i].tag != None && s[j].tag != None {
        StrLessIsLexLess(s[i].tag.value, s[j].tag.value);
      }
    }
  }

  /** In tag order, the nodes without a tag come last. */
  lemma SortingAscends(s: seq<Node>)
    ensures TagsAscend(Sorting(s))
  {
    SortingOrders(s);
    OrderedAscends(Sorting(s));
  }

  lemma {:induction false} MergedPermutes(a: seq<Node>, b: seq<Node>)
    ensures multiset(Merged(a, b)) == multiset(a) + multiset(b)
    decreases |a| + |b|
  {
    hide TagLe;
    if a != [] && b != [] {
      assert a == [a[0]] + a[1..] && b == [b[0]] + b[1..];
      if TagLe(a[0].tag, b[0].tag) {
        MergedPermutes(a[1..], b);
      } else {
        MergedPermutes(a, b[1..]);
      }
    }
  }

  /** The same nodes come out. */
  lemma {:induction false} SortingPermutes(s: seq<Node>)
    ensures multiset(Sorting(s)) == multiset(s)
    decreases |s|
  {
    hide Merged;
    if |s| > 1 {
      var h := |s| / 2;
      var front, back := s[..h], s[h..];
      SortingPermutes(front);
      SortingPermutes(back);
      MergedPermutes(Sorting(front), Sorting(back));
      assert Sorting(s) == Merged(Sorting(front), Sorting(back));
      assert s == front + back;
    }
  }

  lemma {:induction false} WithTagAppend(a: seq<Node>, b: seq<Node>, t: Tag)
    ensures WithTag(a + b, t) == WithTag(a, t) + WithTag(b, t)
  {
    if a == [] {
      assert a + b == b;
    } else {
      var rest := a[1..];
      assert (a + b)[1..] == rest + b;
      WithTagAppend(rest, b, t);
      ghost var first: seq<Node> := if a[0].tag == t then [a[0]] else [];
      assert first + (WithTag(rest, t) + WithTag(b, t)) == first + WithTag(rest, t) + WithTag(b, t);
    }
  }

  lemma {:induction false} WithTagNone(s: seq<Node>, t: Tag)
    requires forall i :: 0 <= i < |s| ==> s[i].tag != t
    ensures WithTag(s, t) == []
  {
    if s != [] {
      WithTagNone(s[1..], t);
    }
  }

  lemma SmallerTag(t: Tag, u: Tag, s: seq<Node>)
    requires !TagLe(u, t) && Below(u, s)
    ensures WithTag(s, t) == []
  {
    hide TagLe;
    WithTagNone(s, t);
  }

  lemma {:induction false} MergedStable(a: seq<Node>, b: seq<Node>, t: Tag)
    requires Ordered(a) && Ordered(b)
    ensures WithTag(Merged(a, b), t) == WithTag(a, t) + WithTag(b, t)
    decreases |a| + |b|
  {
    hide TagLe;
    hide Ordered;
    hide Below;
    if a != [] && b != [] {
      FirstBelow(a);
      FirstBelow(b);
      if TagLe(a[0].tag, b[0].tag) {
        MergedStable(a[1..], b, t);
        assert Merged(a, b)[1..] == Merged(a[1..], b);
      } else {
        MergedStable(a, b[1..], t);
        assert Merged(a, b)[1..] == Merged(a, b[1..]);
        if b[0].tag == t {
          SmallerTag(t, a[0].tag, a);
        }
      }
    }
  }

  /** Nodes with the same tag keep their order. */
  lemma {:induction false} SortingStable(s: seq<Node>, t: Tag)
    ensures WithTag(Sorting(s), t) == WithTag(s, t)
    decreases |s|
  {
    if |s| > 1 {
      hide WithTag;
      hide Ordered;
      var h := |s| / 2;
      SortingStable(s[..h], t);
      SortingStable(s[h..], t);
      SortingOrders(s[..h]);
      SortingOrders(s[h..]);
      MergedStable(Sorting(s[..h]), Sorting(s[h..]), t);
      WithTagAppend(s[..h], s[h..], t);
      assert s == s[..h] + s[h..];
    }
  }
}
