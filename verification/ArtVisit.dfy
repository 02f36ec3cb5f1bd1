// Visiting the leaves: the recursive traversal with an early stop (art_node_iterate) and the
// breadth-first queue of the iterator.

module ArtVisit {
  import opened Bytes
  import opened ArtTree
  import opened ArtOrder
  import opened ArtNode
  import opened ArtHeap

  /** A slot of the matches: a C string, or NULL. */
  type Match = Option<seq<Byte>>

  /** What the callback stores for a key: its bytes up to the terminator, copied by
      `pgvictoria_append(NULL, key)`. */
  function MatchOf(key: seq<Byte>): Match {
    if key == [] then None else CopyText(key[..|key| - 1])
  }

  function MatchesOf(es: seq<Entry>): (ms: seq<Match>)
    ensures |ms| == |es|
  {
    seq(|es|, i requires 0 <= i < |es| => MatchOf(es[i].0))
  }

  /** What `prefix_search_cb` keeps: copies of the first `max` keys. */
  function FirstMatches(acc: seq<Match>, es: seq<Entry>, max: nat): seq<Match> {
    (acc + MatchesOf(es))[..Min(|acc| + |es|, max)]
  }

  lemma MatchesOfConcat(a: seq<Entry>, b: seq<Entry>)
    ensures MatchesOf(a + b) == MatchesOf(a) + MatchesOf(b)
  {
  }

  /** Visiting one part after another is visiting the whole; once the limit is exceeded, the rest
      changes nothing. */
  lemma FirstMatchesConcat(acc: seq<Match>, a: seq<Entry>, b: seq<Entry>, max: nat)
    requires |acc| <= max
    ensures |acc| + |a| <= max ==> FirstMatches(FirstMatches(acc, a, max), b, max) == FirstMatches(acc, a + b, max)
    ensures |acc| + |a| > max ==> FirstMatches(acc, a, max) == FirstMatches(acc, a + b, max)
  {
    MatchesOfConcat(a, b);
    assert acc + MatchesOf(a + b) == acc + MatchesOf(a) + MatchesOf(b);
  }

  /** Bytes without a child contribute nothing. */
  lemma {:induction false} EntriesSkip(t: Tree, b: nat, c: nat)
    requires t.Inner? && b <= c <= 256 && forall a: Byte :: a in t.kids && b <= a ==> c <= a
    ensures EntriesFrom(t, b) == EntriesFrom(t, c)
    decreases c - b
  {
    hide Entries;
    if b < c {
      EntriesSkip(t, b + 1, c);
    }
  }

  lemma EntriesNext(t: Tree, b: nat, c: Byte)
    requires t.Inner? && b <= c && c in t.kids && forall a: Byte :: a in t.kids && b <= a ==> c <= a
    ensures EntriesFrom(t, b) == Entries(t.kids[c]) + EntriesFrom(t, c + 1)
  {
    hide Entries;
    EntriesSkip(t, b, c);
  }

  lemma EntriesInner(t: Tree)
    requires t.Inner?
    ensures Entries(t) == EntriesFrom(t, 0)
  {
  }

  /** `art_node_iterate` with the callback of prefix search: collect keys until there are `max`, and
      stop at the next one. */
  method Collect(c: Ptr, acc: seq<Match>, max: nat) returns (out: seq<Match>, stop: bool)
    requires c != Null && ValidPtr(c) && |acc| <= max
    ensures out == FirstMatches(acc, Entries(TreeOf(c)), max)
    ensures stop <==> |acc| + |Entries(TreeOf(c))| > max
    decreases Foot(c), 1
  {
    hide Node.Valid;
    match c {
      case ToLeaf(l) =>
        assert MatchesOf(Entries(TreeOf(c))) == [MatchOf(l.key)];
        if |acc| >= max {
          out, stop := acc, true;
          assert acc == (acc + [MatchOf(l.key)])[..max];
        } else {
          out, stop := acc + [MatchOf(l.key)], false;
        }
      case ToNode(n) =>
        out, stop := CollectKids(n, acc, max);
    }
  }

  method CollectKids(n: Node, acc: seq<Match>, max: nat) returns (out: seq<Match>, stop: bool)
    requires n.Valid() && |acc| <= max
    ensures out == FirstMatches(acc, Entries(n.tree), max)
    ensures stop <==> |acc| + |Entries(n.tree)| > max
    decreases n.Repr, 0
  {
    hide Node.Valid;
    hide Node.Layout;
    hide Kids;
    hide Entries;
    hide EntriesFrom;
    hide FirstMatches;
    NodeParts(n);
    ghost var t := n.tree;
    ghost var done: seq<Entry> := [];
    EntriesInner(t);
    CoveredStart(n);
    var i := 0;
    out, stop := acc, false;
    FirstMatchesNone(acc, max);
    while i < n.Steps()
      invariant i <= n.Steps() && n.Covered(i) <= 256
      invariant done + EntriesFrom(t, n.Covered(i)) == Entries(t)
      invariant |acc| + |done| <= max && out == FirstMatches(acc, done, max) && !stop
    {
      var c; ghost var b;
      c, b := n.KidAt(i);
      if c != Null {
        NodeKid(n, b);
        EntriesNext(t, n.Covered(i), b);
        ghost var es := Entries(t.kids[b]);
        ghost var next: nat := b as int + 1;
        ghost var rest := EntriesFrom(t, next);
        CollectStep(acc, done, es, rest, Entries(t), max);
        out, stop := Collect(c, out, max);
        done := done + es;
        if stop {
          return;
        }
      } else {
        CoveredBound(n, i + 1);
        EntriesSkip(t, n.Covered(i), n.Covered(i + 1));
      }
      i := i + 1;
    }
    NothingLeft(n);
    assert done == Entries(t);
  }

  /** Adding the entries of one child to those already visited. */
  lemma CollectStep(acc: seq<Match>, done: seq<Entry>, es: seq<Entry>, rest: seq<Entry>, whole: seq<Entry>, max: nat)
    requires |acc| + |done| <= max && done + (es + rest) == whole
    ensures done + es + rest == whole
    ensures |FirstMatches(acc, done, max)| == |acc| + |done|
    ensures FirstMatches(FirstMatches(acc, done, max), es, max) == FirstMatches(acc, done + es, max)
    ensures |acc| + |done + es| > max ==> FirstMatches(acc, done + es, max) == FirstMatches(acc, whole, max)
  {
    hide MatchesOf;
    assert done + es + rest == whole;
    FirstMatchesConcat(acc, done, es, max);
    FirstMatchesConcat(acc, done + es, rest, max);
  }

  lemma FirstMatchesNone(acc: seq<Match>, max: nat)
    requires |acc| <= max
    ensures FirstMatches(acc, [], max) == acc
  {
    assert acc + MatchesOf([]) == acc;
  }

  lemma CoveredStart(n: Node)
    requires n.Layout()
    ensures n.Covered(0) == 0
  {
  }

  lemma CoveredBound(n: Node, i: nat)
    requires n.Layout() && i <= n.Steps()
    ensures n.Covered(i) <= 256
  {
  }

  lemma NothingLeft(n: Node)
    requires n.Layout() && n.tree.Inner? && n.kids.Keys == n.tree.kids.Keys
    ensures n.Covered(n.Steps()) <= 256 && EntriesFrom(n.tree, n.Covered(n.Steps())) == []
  {
    hide Entries;
    CoveredBound(n, n.Steps());
    forall a: Byte | a in n.tree.kids ensures a < n.Covered(n.Steps()) {
      n.AllCovered(a);
    }
    EntriesSkip(n.tree, n.Covered(n.Steps()), 256);
  }

  // ----- the queue of the iterator -----

  /** The children of a node in byte order. */
  ghost function KidsFrom(t: Tree, b: nat): seq<Tree>
    requires t.Inner? && b <= 256
    decreases 256 - b
  {
    if b == 256 then [] else (if b in t.kids then [t.kids[b]] else []) + KidsFrom(t, b + 1)
  }

  /** All entries below the trees of a queue. */
  ghost function Pending(q: seq<Tree>): multiset<Entry> {
    if q == [] then multiset{} else multiset(Entries(q[0])) + Pending(q[1..])
  }

  lemma {:induction false} PendingConcat(a: seq<Tree>, b: seq<Tree>)
    ensures Pending(a + b) == Pending(a) + Pending(b)
  {
    if a == [] {
      assert a + b == b;
    } else {
      assert (a + b)[1..] == a[1..] + b;
      PendingConcat(a[1..], b);
    }
  }

  /** Replacing a node in the queue by its children loses no entry and repeats none. */
  lemma {:induction false} PendingKids(t: Tree, b: nat)
    requires t.Inner? && b <= 256
    ensures Pending(KidsFrom(t, b)) == multiset(EntriesFrom(t, b))
    decreases 256 - b
  {
    hide Entries;
    if b < 256 {
      PendingKids(t, b + 1);
      if b in t.kids {
        PendingConcat([t.kids[b]], KidsFrom(t, b + 1));
        assert Pending([t.kids[b]]) == multiset(Entries(t.kids[b])) + Pending([]);
      } else {
        assert [] + KidsFrom(t, b + 1) == KidsFrom(t, b + 1);
        assert [] + EntriesFrom(t, b + 1) == EntriesFrom(t, b + 1);
      }
    }
  }

  /** The nodes and leaves of a tree, counted; the queue's measure. */
  ghost function Weight(t: Tree): nat
    decreases t, 257
  {
    if t.Leaf? then 1 else 1 + WeightFrom(t, 0)
  }

  ghost function WeightFrom(t: Tree, b: nat): nat
    requires t.Inner? && b <= 256
    decreases t, 256 - b
  {
    if b == 256 then 0 else (if b in t.kids then Weight(t.kids[b]) else 0) + WeightFrom(t, b + 1)
  }

  ghost function TotalWeight(q: seq<Tree>): nat {
    if q == [] then 0 else Weight(q[0]) + TotalWeight(q[1..])
  }

  lemma {:induction false} TotalWeightConcat(a: seq<Tree>, b: seq<Tree>)
    ensures TotalWeight(a + b) == TotalWeight(a) + TotalWeight(b)
  {
    if a == [] {
      assert a + b == b;
    } else {
      assert (a + b)[1..] == a[1..] + b;
      TotalWeightConcat(a[1..], b);
    }
  }

  lemma {:induction false} WeightKids(t: Tree, b: nat)
    requires t.Inner? && b <= 256
    ensures TotalWeight(KidsFrom(t, b)) == WeightFrom(t, b)
    decreases 256 - b
  {
    hide Weight;
    if b < 256 {
      WeightKids(t, b + 1);
      if b in t.kids {
        TotalWeightConcat([t.kids[b]], KidsFrom(t, b + 1));
        assert TotalWeight([t.kids[b]]) == Weight(t.kids[b]) + TotalWeight([]);
      } else {
        assert [] + KidsFrom(t, b + 1) == KidsFrom(t, b + 1);
      }
    }
  }

  lemma {:induction false} KidsSkip(t: Tree, b: nat, c: nat)
    requires t.Inner? && b <= c <= 256 && forall a: Byte :: a in t.kids && b <= a ==> c <= a
    ensures KidsFrom(t, b) == KidsFrom(t, c)
    decreases c - b
  {
    if b < c {
      KidsSkip(t, b + 1, c);
    }
  }

  /** The pointers of a queue lead to the trees `ts`, built from objects of `R`. */
  ghost predicate Queue(que: seq<Ptr>, ts: seq<Tree>, R: set<object>)
    reads R
  {
    |que| == |ts| && forall i :: 0 <= i < |que| ==> Leads(que[i], ts[i], R)
  }

  /** Appending the children of a node to the queue, in byte order. */
  method EnqueueKids(n: Node, que: seq<Ptr>, ghost ts: seq<Tree>, ghost R: set<object>) returns (out: seq<Ptr>)
    requires n.Valid() && n.tree.Inner? && n.Repr <= R && Queue(que, ts, R)
    ensures Queue(out, ts + KidsFrom(n.tree, 0), R)
  {
    hide Node.Valid;
    hide Node.Layout;
    hide Kids;
    hide Leads;
    hide KidsFrom;
    NodeParts(n);
    CoveredStart(n);
    ghost var t := n.tree;
    ghost var done: seq<Tree> := [];
    out := que;
    assert ts + done == ts;
    var i := 0;
    while i < n.Steps()
      invariant i <= n.Steps() && n.Covered(i) <= 256
      invariant done + KidsFrom(t, n.Covered(i)) == KidsFrom(t, 0)
      invariant Queue(out, ts + done, R)
    {
      var c; ghost var b;
      c, b := n.KidAt(i);
      CoveredBound(n, i + 1);
      if c != Null {
        NodeKid(n, b);
        KidsNext(t, n.Covered(i), b);
        LeadsOwn(c, R);
        ghost var q := ts + done;
        out := out + [c];
        done := done + [t.kids[b]];
        assert ts + done == q + [t.kids[b]];
      } else {
        KidsSkip(t, n.Covered(i), n.Covered(i + 1));
      }
      i := i + 1;
    }
    NoKidsLeft(n);
    assert done == KidsFrom(t, 0);
  }

  lemma KidsNext(t: Tree, b: nat, c: Byte)
    requires t.Inner? && b <= c && c in t.kids && forall a: Byte :: a in t.kids && b <= a ==> c <= a
    ensures KidsFrom(t, b) == [t.kids[c]] + KidsFrom(t, c as int + 1)
  {
    KidsSkip(t, b, c);
  }

  lemma NoKidsLeft(n: Node)
    requires n.Layout() && n.tree.Inner? && n.kids.Keys == n.tree.kids.Keys
    ensures n.Covered(n.Steps()) <= 256 && KidsFrom(n.tree, n.Covered(n.Steps())) == []
  {
    CoveredBound(n, n.Steps());
    forall a: Byte | a in n.tree.kids ensures a < n.Covered(n.Steps()) {
      n.AllCovered(a);
    }
    KidsSkip(n.tree, n.Covered(n.Steps()), 256);
  }
}
