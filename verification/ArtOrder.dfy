// In-order traversal (art_node_iterate) and prefix search over the tree as a value.

module ArtOrder {
  import opened Bytes
  import opened Values
  import opened ArtTree

  type Entry = (seq<Byte>, Value)

  /** The leaves in the order `art_node_iterate` visits them: by increasing edge byte. */
  ghost function Entries(t: Tree): seq<Entry>
    decreases t, 257
  {
    if t.Leaf? then [(t.key, t.value)] else EntriesFrom(t, 0)
  }

  ghost function EntriesFrom(t: Tree, b: nat): seq<Entry>
    requires t.Inner? && b <= 256
    decreases t, 256 - b
  {
    if b == 256 then []
    else (if b in t.kids then Entries(t.kids[b]) else []) + EntriesFrom(t, b + 1)
  }

  /** Strictly increasing keys, compared as unsigned bytes. */
  ghost predicate Increasing(es: seq<Entry>) {
    forall i, j :: 0 <= i < j < |es| ==> LexLess(es[i].0, es[j].0)
  }

  /** `es` lists the map `m`: each entry once, and nothing else. */
  ghost predicate Lists(es: seq<Entry>, m: map<seq<Byte>, Value>) {
    && (forall i :: 0 <= i < |es| ==> es[i].0 in m && m[es[i].0] == es[i].1)
    && (forall k :: k in m ==> exists i :: 0 <= i < |es| && es[i].0 == k)
  }

  lemma ListsConcat(a: seq<Entry>, m: map<seq<Byte>, Value>, b: seq<Entry>, n: map<seq<Byte>, Value>)
    requires Lists(a, m) && Lists(b, n)
    requires forall k :: k in m ==> k !in n
    ensures Lists(a + b, m + n)
  {
    var es := a + b;
    forall k | k in m + n ensures exists i :: 0 <= i < |es| && es[i].0 == k {
      if k in n {
        var i :| 0 <= i < |b| && b[i].0 == k;
        assert es[|a| + i].0 == k;
      } else {
        var i :| 0 <= i < |a| && a[i].0 == k;
        assert es[i].0 == k;
      }
    }
  }

  lemma IncreasingConcat(a: seq<Entry>, b: seq<Entry>)
    requires Increasing(a) && Increasing(b)
    requires forall i, j :: 0 <= i < |a| && 0 <= j < |b| ==> LexLess(a[i].0, b[j].0)
    ensures Increasing(a + b)
  {
    var es := a + b;
    forall i, j | 0 <= i < j < |es| ensures LexLess(es[i].0, es[j].0) {
    }
  }

  /** Traversal visits every key exactly once, in increasing order. */
  lemma {:induction false} TraversalInOrder(t: Tree, p: seq<Byte>)
    requires Wf(t, p)
    ensures Lists(Entries(t), Dict(t)) && Increasing(Entries(t))
    decreases t, 257
  {
    hide Wf;
    if t.Leaf? {
      assert Entries(t) == [(t.key, t.value)];
      assert Entries(t)[0].0 == t.key;
    } else {
      TraversalInOrderFrom(t, p, 0);
    }
  }

  lemma {:induction false} TraversalInOrderFrom(t: Tree, p: seq<Byte>, b: nat)
    requires t.Inner? && Wf(t, p) && b <= 256
    ensures Lists(EntriesFrom(t, b), DictFrom(t, b)) && Increasing(EntriesFrom(t, b))
    decreases t, 256 - b
  {
    hide Wf;
    hide Dict;
    hide Entries;
    if b < 256 {
      TraversalInOrderFrom(t, p, b + 1);
      if b in t.kids {
        KidWf(t, p, b);
        TraversalInOrder(t.kids[b], Path(t, p) + [b]);
        KidBelowLater(t, p, b);
        ListsConcat(Entries(t.kids[b]), Dict(t.kids[b]), EntriesFrom(t, b + 1), DictFrom(t, b + 1));
        IncreasingConcat(Entries(t.kids[b]), EntriesFrom(t, b + 1));
      } else {
        assert map[] + DictFrom(t, b + 1) == DictFrom(t, b + 1);
        assert [] + EntriesFrom(t, b + 1) == EntriesFrom(t, b + 1);
      }
    }
  }

  /** The keys below one child come before the keys below the children with larger bytes. */
  lemma KidBelowLater(t: Tree, p: seq<Byte>, b: Byte)
    requires t.Inner? && Wf(t, p) && b in t.kids
    requires Lists(Entries(t.kids[b]), Dict(t.kids[b])) && Lists(EntriesFrom(t, b + 1), DictFrom(t, b + 1))
    ensures forall k :: k in Dict(t.kids[b]) ==> k !in DictFrom(t, b + 1)
    ensures var x := Entries(t.kids[b]); var y := EntriesFrom(t, b + 1);
            forall i, j :: 0 <= i < |x| && 0 <= j < |y| ==> LexLess(x[i].0, y[j].0)
  {
    hide Wf;
    hide Dict;
    hide DictFrom;
    hide Entries;
    hide EntriesFrom;
    forall k | k in Dict(t.kids[b]) ensures k !in DictFrom(t, b + 1) {
      KidKeys(t, p, b, k);
      DictFromKid(t, p, b + 1, k);
    }
    var x := Entries(t.kids[b]);
    var y := EntriesFrom(t, b + 1);
    forall i, j | 0 <= i < |x| && 0 <= j < |y| ensures LexLess(x[i].0, y[j].0) {
      KeysOrdered(t, p, b, x[i].0, y[j].0);
    }
  }

  lemma KeysOrdered(t: Tree, p: seq<Byte>, b: Byte, k: seq<Byte>, l: seq<Byte>)
    requires t.Inner? && Wf(t, p) && b in t.kids && k in Dict(t.kids[b]) && l in DictFrom(t, b + 1)
    ensures LexLess(k, l)
  {
    hide Wf;
    hide Dict;
    hide DictFrom;
    KidKeys(t, p, b, k);
    DictFromKid(t, p, b + 1, l);
    var n := |Path(t, p)|;
    KidKeys(t, p, l[n], l);
    assert k[..n] == Path(t, p) == l[..n];
    LexLessAt(k, l, n);
  }

  /** The leftmost key comes first in the traversal. */
  lemma {:induction false} MinKeyFirst(t: Tree, p: seq<Byte>)
    requires Wf(t, p)
    ensures Entries(t) != [] && Entries(t)[0].0 == MinKey(t)
    decreases t, 257
  {
    hide Wf;
    if t.Inner? {
      KidCount(t, p);
      MinKeyFirstFrom(t, p, 0);
    }
  }

  lemma {:induction false} MinKeyFirstFrom(t: Tree, p: seq<Byte>, b: nat)
    requires t.Inner? && Wf(t, p) && b <= 256 && exists c: Byte :: b <= c && c in t.kids
    ensures EntriesFrom(t, b) != [] && EntriesFrom(t, b)[0].0 == MinKeyFrom(t, b)
    decreases t, 256 - b
  {
    hide Wf;
    hide Entries;
    hide MinKey;
    if b in t.kids {
      KidWf(t, p, b);
      MinKeyFirst(t.kids[b], Path(t, p) + [b]);
    } else {
      MinKeyFirstFrom(t, p, b + 1);
    }
  }

  lemma KidCount(t: Tree, p: seq<Byte>)
    requires t.Inner? && Wf(t, p)
    ensures exists c: Byte :: 0 <= c && c in t.kids
  {
    assert |t.kids.Keys| >= 2;
    var c :| c in t.kids.Keys;
  }

  /** The leftmost key, from which insertion and prefix search read the bytes that are not stored, is
      the least key of the map. */
  lemma MinKeyIsLeast(t: Tree, p: seq<Byte>, k: seq<Byte>)
    requires Wf(t, p) && k in Dict(t)
    ensures MinKey(t) in Dict(t) && (k == MinKey(t) || LexLess(MinKey(t), k))
  {
    hide Wf;
    hide Dict;
    hide Entries;
    hide MinKey;
    MinKeyFirst(t, p);
    TraversalInOrder(t, p);
    var i :| 0 <= i < |Entries(t)| && Entries(t)[i].0 == k;
    assert i > 0 ==> LexLess(Entries(t)[0].0, Entries(t)[i].0);
  }

  // ----- prefix search -----

  /** The entries whose key starts with `pre`, in order: the specification of prefix search. */
  ghost function WithPrefix(es: seq<Entry>, pre: seq<Byte>): seq<Entry> {
    if es == [] then []
    else (if pre <= es[0].0 then [es[0]] else []) + WithPrefix(es[1..], pre)
  }

  lemma {:induction false} WithPrefixConcat(a: seq<Entry>, b: seq<Entry>, pre: seq<Byte>)
    ensures WithPrefix(a + b, pre) == WithPrefix(a, pre) + WithPrefix(b, pre)
  {
    if a == [] {
      assert a + b == b;
    } else {
      assert (a + b)[1..] == a[1..] + b;
      WithPrefixConcat(a[1..], b, pre);
    }
  }

  lemma {:induction false} WithPrefixNone(es: seq<Entry>, pre: seq<Byte>)
    requires forall i :: 0 <= i < |es| ==> !(pre <= es[i].0)
    ensures WithPrefix(es, pre) == []
  {
    if es != [] {
      WithPrefixNone(es[1..], pre);
    }
  }

  lemma {:induction false} WithPrefixAll(es: seq<Entry>, pre: seq<Byte>)
    requires forall i :: 0 <= i < |es| ==> pre <= es[i].0
    ensures WithPrefix(es, pre) == es
  {
    if es != [] {
      WithPrefixAll(es[1..], pre);
      assert [es[0]] + es[1..] == es;
    }
  }

  lemma {:induction false} WithPrefixIn(es: seq<Entry>, pre: seq<Byte>, i: nat) returns (j: nat)
    requires i < |WithPrefix(es, pre)|
    ensures j < |es| && es[j] == WithPrefix(es, pre)[i] && pre <= es[j].0
  {
    var first: seq<Entry> := if pre <= es[0].0 then [es[0]] else [];
    if i < |first| {
      j := 0;
    } else {
      j := WithPrefixIn(es[1..], pre, i - |first|);
      j := j + 1;
    }
  }

  /** Every visited key extends the path of its subtree. */
  lemma EntriesExtend(t: Tree, p: seq<Byte>, i: nat)
    requires Wf(t, p) && i < |Entries(t)|
    ensures p <= Entries(t)[i].0 && (t.Inner? ==> Path(t, p) <= Entries(t)[i].0)
    ensures Entries(t)[i].0 in Dict(t)
  {
    hide Wf;
    hide Dict;
    hide Entries;
    TraversalInOrder(t, p);
    KeysExtend(t, p, Entries(t)[i].0);
  }

  /** Two prefixes of one string: the shorter is a prefix of the longer. */
  lemma PrefixesNest(a: seq<Byte>, b: seq<Byte>, k: seq<Byte>)
    requires a <= k && b <= k && |a| <= |b|
    ensures a <= b
  {
    assert k[..|b|][..|a|] == k[..|a|];
  }

  /** The prefix ends on or before the path of the node: all of the subtree matches or none of it
      does, and the leftmost key decides, whether or not the bytes in question are stored. */
  lemma PrefixInsidePath(t: Tree, p: seq<Byte>, pre: seq<Byte>)
    requires t.Inner? && Wf(t, p) && |pre| <= |p| + t.prefixLen
    ensures pre <= MinKey(t) ==> WithPrefix(Entries(t), pre) == Entries(t)
    ensures !(pre <= MinKey(t)) ==> WithPrefix(Entries(t), pre) == []
  {
    hide Dict;
    hide Entries;
    hide MinKey;
    var fp := Path(t, p);
    assert fp <= MinKey(t);
    var es := Entries(t);
    forall i | 0 <= i < |es| ensures pre <= es[i].0 <==> pre <= MinKey(t) {
      EntriesExtend(t, p, i);
      if pre <= es[i].0 {
        PrefixesNest(pre, fp, es[i].0);
      }
      if pre <= MinKey(t) {
        PrefixesNest(pre, fp, MinKey(t));
      }
    }
    if pre <= MinKey(t) {
      WithPrefixAll(es, pre);
    } else {
      WithPrefixNone(es, pre);
    }
  }

  /** No key below a child whose byte differs from the prefix can match it. */
  lemma OtherKid(t: Tree, p: seq<Byte>, pre: seq<Byte>, b: Byte)
    requires t.Inner? && Wf(t, p) && b in t.kids
    requires |Path(t, p)| < |pre| && pre[|Path(t, p)|] != b
    ensures WithPrefix(Entries(t.kids[b]), pre) == []
  {
    hide Wf;
    hide Dict;
    hide MinKey;
    hide Entries;
    KidWf(t, p, b);
    var es := Entries(t.kids[b]);
    forall i | 0 <= i < |es| ensures !(pre <= es[i].0) {
      EntriesExtend(t.kids[b], Path(t, p) + [b], i);
      KidKeys(t, p, b, es[i].0);
    }
    WithPrefixNone(es, pre);
  }

  /** The prefix goes on past the path of the node: only the child it selects can match. */
  lemma {:induction false} PrefixPastPath(t: Tree, p: seq<Byte>, pre: seq<Byte>, b: nat)
    requires t.Inner? && Wf(t, p) && |Path(t, p)| == |p| + t.prefixLen < |pre| && b <= 256
    ensures var x := pre[|p| + t.prefixLen];
            WithPrefix(EntriesFrom(t, b), pre) ==
            if b <= x && x in t.kids then WithPrefix(Entries(t.kids[x]), pre) else []
    decreases 256 - b
  {
    hide Wf;
    hide Dict;
    hide MinKey;
    hide Path;
    hide Entries;
    if b < 256 {
      PrefixPastPath(t, p, pre, b + 1);
      if b in t.kids {
        WithPrefixConcat(Entries(t.kids[b]), EntriesFrom(t, b + 1), pre);
        if b != pre[|p| + t.prefixLen] {
          OtherKid(t, p, pre, b);
        }
      } else {
        assert [] + EntriesFrom(t, b + 1) == EntriesFrom(t, b + 1);
      }
    }
  }

  /** One step of the descent of `pgvictoria_art_prefix_search` below an inner node. */
  lemma PrefixStep(t: Tree, p: seq<Byte>, pre: seq<Byte>)
    requires t.Inner? && Wf(t, p) && |p| <= |pre|
    ensures |t.stored| == Min(t.prefixLen, MAX_PREFIX_LEN) && |Path(t, p)| == |p| + t.prefixLen
    ensures var n := CheckPrefixPartial(t, pre, |p|);
            && (n < Min(t.prefixLen, MAX_PREFIX_LEN) && |p| + n < |pre| ==> WithPrefix(Entries(t), pre) == [])
    ensures |p| + t.prefixLen < |pre| ==> var x := pre[|p| + t.prefixLen];
            WithPrefix(Entries(t), pre) == if x in t.kids then WithPrefix(Entries(t.kids[x]), pre) else []
  {
    hide Wf;
    hide Dict;
    hide MinKey;
    StoredBytes(t, p);
    PathLength(t, p);
    var n := CheckPrefixPartial(t, pre, |p|);
    if n < Min(t.prefixLen, MAX_PREFIX_LEN) && |p| + n < |pre| {
      MismatchMeansNone(t, p, pre, n);
    }
    if |p| + t.prefixLen < |pre| {
      PrefixPastPath(t, p, pre, 0);
    }
  }

  lemma PathLength(t: Tree, p: seq<Byte>)
    requires t.Inner? && Wf(t, p)
    ensures |Path(t, p)| == |p| + t.prefixLen && Path(t, p) <= MinKey(t)
  {
  }

  lemma MismatchMeansNone(t: Tree, p: seq<Byte>, pre: seq<Byte>, n: nat)
    requires t.Inner? && Wf(t, p) && |p| + n < |pre| && n < |t.stored|
    requires t.stored[n] != pre[|p| + n]
    ensures WithPrefix(Entries(t), pre) == []
  {
    hide Wf;
    hide Dict;
    hide MinKey;
    hide Entries;
    StoredBytes(t, p);
    PathLength(t, p);
    var fp := Path(t, p);
    var es := Entries(t);
    forall i | 0 <= i < |es| ensures !(pre <= es[i].0) {
      EntriesExtend(t, p, i);
      assert fp[|p| + n] == MinKey(t)[|p| + n];
    }
    WithPrefixNone(es, pre);
  }
}
