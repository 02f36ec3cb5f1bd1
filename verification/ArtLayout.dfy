// What the arrays of the four node layouts say: relations between the raw key and child arrays
// and the byte-to-child map they stand for.

module ArtLayout {
  import opened Bytes
  import opened Collections

  // ----- Node4 and Node16: parallel arrays in key order -----

  ghost predicate StrictlySorted(ks: seq<Byte>) {
    forall i, j :: 0 <= i < j < |ks| ==> ks[i] < ks[j]
  }

  /** The used parts of the key and child arrays list the map `m` in key order. */
  ghost predicate SortedPairs<T>(ks: seq<Byte>, cs: seq<T>, m: map<Byte, T>) {
    && |ks| == |cs| == |m|
    && StrictlySorted(ks)
    && (forall i :: 0 <= i < |ks| ==> ks[i] in m && m[ks[i]] == cs[i])
  }

  lemma PairsSorted<T>(ks: seq<Byte>, cs: seq<T>, m: map<Byte, T>)
    requires SortedPairs(ks, cs, m)
    ensures StrictlySorted(ks) && |ks| == |cs| == |m|
  {
  }

  /** The bytes of a sorted array, as a set. */
  lemma {:induction false} SortedSet(ks: seq<Byte>) returns (bs: set<Byte>)
    requires StrictlySorted(ks)
    ensures |bs| == |ks| && forall b :: b in bs <==> b in ks
  {
    if ks == [] {
      bs := {};
    } else {
      var n := |ks| - 1;
      var before := SortedSet(ks[..n]);
      bs := before + {ks[n]};
      assert ks == ks[..n] + [ks[n]];
      assert forall b :: b in ks[..n] ==> b < ks[n];
    }
  }

  /** The arrays leave no byte of the map out: they have as many different entries as it has. */
  lemma PairsComplete<T>(ks: seq<Byte>, cs: seq<T>, m: map<Byte, T>, b: Byte)
    requires SortedPairs(ks, cs, m) && b in m
    ensures b in ks
  {
    var bs := SortedSet(ks);
    if b !in ks {
      assert bs <= m.Keys - {b};
      SubsetSize(bs, m.Keys - {b});
    }
  }

  function InsertAt<T>(s: seq<T>, i: nat, x: T): (r: seq<T>)
    requires i <= |s|
    ensures |r| == |s| + 1 && r[i] == x
    ensures forall j :: 0 <= j < i ==> r[j] == s[j]
    ensures forall j :: i < j < |r| ==> r[j] == s[j - 1]
    ensures forall j :: i <= j < |s| ==> r[j + 1] == s[j]
  {
    s[..i] + [x] + s[i..]
  }

  lemma InsertKeepsSorted(ks: seq<Byte>, i: nat, b: Byte)
    requires StrictlySorted(ks) && i <= |ks|
    requires forall j :: 0 <= j < i ==> ks[j] < b
    requires forall j :: i <= j < |ks| ==> b < ks[j]
    ensures StrictlySorted(InsertAt(ks, i, b))
  {
    hide InsertAt;
    var r := InsertAt(ks, i, b);
    forall x, y | 0 <= x < y < |r| ensures r[x] < r[y] {
      var u := if x < i then ks[x] else if x == i then b else ks[x - 1];
      assert r[x] == u;
      var v := if y < i then ks[y] else if y == i then b else ks[y - 1];
      assert r[y] == v;
    }
  }

  lemma RemoveKeepsSorted(ks: seq<Byte>, i: nat)
    requires StrictlySorted(ks) && i < |ks|
    ensures StrictlySorted(RemoveAt(ks, i))
  {
    hide RemoveAt;
    var r := RemoveAt(ks, i);
    forall x, y | 0 <= x < y < |r| ensures r[x] < r[y] {
      assert r[x] == if x < i then ks[x] else ks[x + 1];
      assert r[y] == if y < i then ks[y] else ks[y + 1];
    }
  }

  /** Putting a new byte after the ones it exceeds keeps the arrays sorted and adds one pair. */
  lemma PairInserted<T>(ks: seq<Byte>, cs: seq<T>, m: map<Byte, T>, i: nat, b: Byte, c: T)
    requires SortedPairs(ks, cs, m) && b !in m && i <= |ks|
    requires forall j :: 0 <= j < i ==> ks[j] <= b
    requires forall j :: i <= j < |ks| ==> b < ks[j]
    ensures SortedPairs(InsertAt(ks, i, b), InsertAt(cs, i, c), m[b := c])
  {
    hide InsertAt;
    var ks', cs', m' := InsertAt(ks, i, b), InsertAt(cs, i, c), m[b := c];
    InsertKeepsSorted(ks, i, b);
    forall j | 0 <= j < |ks'| ensures ks'[j] in m' && m'[ks'[j]] == cs'[j] {
      if j < i {
        assert ks'[j] == ks[j] && cs'[j] == cs[j];
      } else if j > i {
        assert ks'[j] == ks[j - 1] && cs'[j] == cs[j - 1];
      }
    }
  }

  lemma PairRemoved<T>(ks: seq<Byte>, cs: seq<T>, m: map<Byte, T>, i: nat)
    requires SortedPairs(ks, cs, m) && i < |ks|
    ensures SortedPairs(RemoveAt(ks, i), RemoveAt(cs, i), m - {ks[i]})
  {
    hide RemoveAt;
    var b := ks[i];
    var n := m - {b};
    var ks', cs' := RemoveAt(ks, i), RemoveAt(cs, i);
    assert n.Keys == m.Keys - {b};
    assert |n.Keys| == |m.Keys| - 1;
    RemoveKeepsSorted(ks, i);
    forall j | 0 <= j < |ks'| ensures ks'[j] in n && n[ks'[j]] == cs'[j] {
      var o := if j < i then j else j + 1;
      assert ks'[j] == ks[o] && cs'[j] == cs[o];
      assert ks[o] != b;
    }
  }

  /** Overwriting the child of a byte that is present. */
  lemma PairUpdated<T>(ks: seq<Byte>, cs: seq<T>, m: map<Byte, T>, i: nat, c: T)
    requires SortedPairs(ks, cs, m) && i < |ks|
    ensures SortedPairs(ks, cs[i := c], m[ks[i] := c])
  {
    var m' := m[ks[i] := c];
    assert m'.Keys == m.Keys;
    assert |m'.Keys| == |m.Keys|;
  }

  // ----- Node48: an index for each byte -----

  /** `ix[b]` is one more than the slot of the child for `b`, or 0; `owner` is the inverse: the
      used slots are exactly the ones that are not `empty`, and no two bytes share a slot. */
  ghost predicate Indexed<T>(ix: seq<Byte>, slots: seq<T>, owner: seq<Byte>, empty: T, m: map<Byte, T>) {
    && |ix| == 256 && |slots| == |owner| == 48
    && (forall b: Byte :: b in m <==> ix[b] != 0)
    && (forall b: Byte :: b in m ==> ix[b] <= 48 && slots[ix[b] - 1] == m[b] && m[b] != empty && owner[ix[b] - 1] == b)
    && (forall s: nat :: s < 48 && slots[s] != empty ==> ix[owner[s]] == s + 1)
  }

  lemma IndexAdded<T>(ix: seq<Byte>, slots: seq<T>, owner: seq<Byte>, empty: T, m: map<Byte, T>, b: Byte, s: nat, c: T)
    requires Indexed(ix, slots, owner, empty, m) && b !in m && s < 48 && slots[s] == empty && c != empty
    ensures Indexed(ix[b := s + 1], slots[s := c], owner[s := b], empty, m[b := c])
  {
  }

  lemma IndexRemoved<T>(ix: seq<Byte>, slots: seq<T>, owner: seq<Byte>, empty: T, m: map<Byte, T>, b: Byte)
    requires Indexed(ix, slots, owner, empty, m) && b in m
    ensures 0 < ix[b] <= 48
    ensures Indexed(ix[b := 0], slots[ix[b] - 1 := empty], owner, empty, m - {b})
  {
  }

  /** Overwriting the child of a byte that is present. */
  lemma IndexUpdated<T>(ix: seq<Byte>, slots: seq<T>, owner: seq<Byte>, empty: T, m: map<Byte, T>, b: Byte, c: T)
    requires Indexed(ix, slots, owner, empty, m) && b in m && c != empty
    ensures 0 < ix[b] <= 48
    ensures Indexed(ix, slots[ix[b] - 1 := c], owner, empty, m[b := c])
  {
  }

  /** As many bytes as there are used slots among the first `n`, all different. */
  lemma {:induction false} UsedSlots<T>(ix: seq<Byte>, slots: seq<T>, owner: seq<Byte>, empty: T, m: map<Byte, T>, n: nat)
    returns (bs: set<Byte>)
    requires Indexed(ix, slots, owner, empty, m) && n <= 48 && forall s: nat :: s < n ==> slots[s] != empty
    ensures |bs| == n && forall b :: b in bs ==> b in m && 0 < ix[b] <= n
  {
    if n == 0 {
      bs := {};
    } else {
      var before := UsedSlots(ix, slots, owner, empty, m, n - 1);
      var s: nat := n - 1;
      assert slots[s] != empty;
      assert owner[s] !in before;
      bs := before + {owner[s]};
    }
  }

  /** A Node48 that is not full has an empty slot, whatever was removed from it before. */
  lemma FreeSlot<T>(ix: seq<Byte>, slots: seq<T>, owner: seq<Byte>, empty: T, m: map<Byte, T>)
    requires Indexed(ix, slots, owner, empty, m) && |m| < 48
    ensures exists s :: 0 <= s < 48 && slots[s] == empty
  {
    if forall s :: 0 <= s < 48 ==> slots[s] != empty {
      var bs := UsedSlots(ix, slots, owner, empty, m, 48);
      SubsetSize(bs, m.Keys);
    }
  }

  /** `ix` records each position `j` of the array `ks` as `j + 1`, and nothing else. */
  ghost predicate IndexesKeys(ix: seq<Byte>, owner: seq<Byte>, ks: seq<Byte>) {
    && |ix| == 256 && |owner| == 48 && |ks| <= 48
    && (forall j :: 0 <= j < |ks| ==> ix[ks[j]] == j + 1 && owner[j] == ks[j])
    && (forall b: Byte :: ix[b] != 0 ==> ix[b] <= |ks| && ks[ix[b] - 1] == b)
  }

  /** Sorted arrays with an index of their keys are a Node48. */
  lemma IndexedFromSorted<T>(ix: seq<Byte>, slots: seq<T>, owner: seq<Byte>, empty: T, m: map<Byte, T>, ks: seq<Byte>, cs: seq<T>)
    requires SortedPairs(ks, cs, m) && IndexesKeys(ix, owner, ks) && |slots| == 48
    requires forall b: Byte :: b in m ==> m[b] != empty
    requires slots[..|ks|] == cs
    requires forall j :: |ks| <= j < 48 ==> slots[j] == empty
    ensures Indexed(ix, slots, owner, empty, m)
  {
    forall b: Byte | b in m ensures 0 < ix[b] <= |ks| && ks[ix[b] - 1] == b {
      PairsComplete(ks, cs, m, b);
      var j :| 0 <= j < |ks| && ks[j] == b;
      assert ix[ks[j]] == j + 1;
    }
    assert forall j :: 0 <= j < |ks| ==> slots[j] == slots[..|ks|][j];
  }

  // ----- Node256: one slot for each byte -----

  ghost predicate Direct<T>(slots: seq<T>, empty: T, m: map<Byte, T>) {
    && |slots| == 256
    && (forall b: Byte :: b in m <==> slots[b] != empty)
    && (forall b: Byte :: b in m ==> slots[b] == m[b])
  }

  lemma DirectSet<T>(slots: seq<T>, empty: T, m: map<Byte, T>, b: Byte, c: T)
    requires Direct(slots, empty, m) && c != empty
    ensures Direct(slots[b := c], empty, m[b := c])
  {
  }

  lemma DirectCleared<T>(slots: seq<T>, empty: T, m: map<Byte, T>, b: Byte)
    requires Direct(slots, empty, m)
    ensures Direct(slots[b := empty], empty, m - {b})
  {
  }

  // ----- one array at a time -----

  /** `memmove` of the tail one place to the right, then a store: the first `n` elements of `a`
      with `x` put in at `i`. */
  method ShiftIn<T>(a: array<T>, n: nat, i: nat, x: T)
    requires i <= n < a.Length
    modifies a
    ensures a[..n + 1] == InsertAt(old(a[..n]), i, x)
  {
    ghost var was := a[..n];
    forall j | i <= j < n {
      a[j + 1] := a[j];
    }
    a[i] := x;
    assert a[..n + 1] == InsertAt(was, i, x);
  }

  /** `memmove` of the tail one place to the left. */
  method ShiftOut<T>(a: array<T>, n: nat, i: nat)
    requires i < n <= a.Length
    modifies a
    ensures a[..n - 1] == RemoveAt(old(a[..n]), i)
  {
    ghost var was := a[..n];
    forall j | i <= j < n - 1 {
      a[j] := a[j + 1];
    }
    assert a[..n - 1] == RemoveAt(was, i);
  }

  method Store<T>(a: array<T>, i: nat, x: T)
    requires i < a.Length
    modifies a
    ensures a[..] == old(a[..])[i := x]
  {
    a[i] := x;
  }

  /** `memcpy` of the first `n` elements. */
  method CopyFirst<T>(to: array<T>, from: array<T>, n: nat)
    requires n <= to.Length && n <= from.Length && to != from
    modifies to
    ensures to[..n] == from[..n]
    ensures forall j :: n <= j < to.Length ==> to[j] == old(to[j])
  {
    forall j | 0 <= j < n {
      to[j] := from[j];
    }
  }

  // ----- counting -----

  /** The entries of a map whose byte is below `n`. */
  ghost function Below<T>(m: map<Byte, T>, n: nat): map<Byte, T> {
    map b: Byte | b in m && b < n :: m[b]
  }

  lemma BelowNext<T>(m: map<Byte, T>, n: Byte)
    ensures n in m ==> Below(m, n + 1) == Below(m, n)[n := m[n]] && |Below(m, n + 1)| == |Below(m, n)| + 1
    ensures n !in m ==> Below(m, n + 1) == Below(m, n)
  {
    if n in m {
      assert Below(m, n + 1) == Below(m, n)[n := m[n]];
      assert n !in Below(m, n);
    }
  }

  lemma BelowSize<T>(m: map<Byte, T>, n: nat)
    ensures |Below(m, n)| <= |m|
    ensures n >= 256 ==> Below(m, n) == m
  {
    assert Below(m, n).Keys <= m.Keys;
    SubsetSize(Below(m, n).Keys, m.Keys);
  }

  /** A map keyed by bytes has at most 256 entries. */
  lemma {:induction false} BytesSize(s: set<Byte>, n: nat)
    requires forall b :: b in s ==> b < n
    ensures |s| <= n
  {
    if n > 0 {
      var rest := s - {n - 1};
      BytesSize(rest, n - 1);
      assert n - 1 in s ==> s == rest + {n - 1};
      assert n - 1 !in s ==> s == rest;
    } else {
      assert s == {};
    }
  }

  lemma BelowNone<T>(m: map<Byte, T>)
    ensures Below(m, 0) == map[]
    ensures SortedPairs([], [], Below(m, 0))
  {
  }

  lemma BelowMember<T>(m: map<Byte, T>, n: Byte)
    ensures n !in Below(m, n)
  {
  }

  /** Scanning the bytes upwards, the next one in use goes to the end of the arrays. */
  lemma NextPair<T>(ks: seq<Byte>, cs: seq<T>, m: map<Byte, T>, n: Byte)
    requires SortedPairs(ks, cs, Below(m, n)) && n in m
    ensures SortedPairs(ks + [n], cs + [m[n]], Below(m, n + 1))
    ensures |ks| < |m|
  {
    BelowNext(m, n);
    BelowSize(m, n + 1);
    PairInserted(ks, cs, Below(m, n), |ks|, n, m[n]);
    assert InsertAt(ks, |ks|, n) == ks + [n];
    assert InsertAt(cs, |cs|, m[n]) == cs + [m[n]];
  }

  lemma PairCount<T>(ks: seq<Byte>, cs: seq<T>, m: map<Byte, T>)
    requires SortedPairs(ks, cs, m)
    ensures |ks| == |cs| == |m|
  {
  }

  method Append<T>(a: array<T>, n: nat, x: T)
    requires n < a.Length
    modifies a
    ensures a[..n + 1] == old(a[..n]) + [x]
  {
    a[n] := x;
  }

  lemma IndexedNone<T>(ix: seq<Byte>, slots: seq<T>, owner: seq<Byte>, empty: T)
    requires |ix| == 256 && |slots| == |owner| == 48
    requires forall b :: 0 <= b < 256 ==> ix[b] == 0
    requires forall s :: 0 <= s < 48 ==> slots[s] == empty
    ensures Indexed(ix, slots, owner, empty, map[])
  {
  }

  /** The position `find_index` returns for a byte that is present is the byte's own. */
  lemma FoundIndex<T>(ks: seq<Byte>, cs: seq<T>, m: map<Byte, T>, b: Byte, index: int)
    requires SortedPairs(ks, cs, m) && b in m && -1 <= index < |ks|
    requires forall j :: 0 <= j <= index ==> ks[j] <= b
    requires forall j :: index < j < |ks| ==> b < ks[j]
    ensures 0 <= index && ks[index] == b
  {
    PairsComplete(ks, cs, m, b);
    var j :| 0 <= j < |ks| && ks[j] == b;
    assert 0 <= j <= index;
    assert ks[j] <= ks[index] <= b;
  }

  lemma MapShrinks<T>(m: map<Byte, T>, b: Byte)
    requires b in m
    ensures |m - {b}| == |m| - 1
  {
    assert (m - {b}).Keys == m.Keys - {b};
    assert |(m - {b}).Keys| == |m.Keys| - 1;
  }

  /** No byte of the map lies between two neighbours in the sorted array. */
  lemma NextInOrder<T>(ks: seq<Byte>, cs: seq<T>, m: map<Byte, T>, i: nat)
    requires SortedPairs(ks, cs, m) && i < |ks|
    ensures i > 0 ==> ks[i - 1] < ks[i]
    ensures forall a: Byte :: a in m && (i == 0 || ks[i - 1] < a) ==> ks[i] <= a
  {
    assert forall x :: 0 <= x < i ==> ks[x] <= ks[i - 1];
    forall a: Byte | a in m && (i == 0 || ks[i - 1] < a) ensures ks[i] <= a {
      PairsComplete(ks, cs, m, a);
      var j :| 0 <= j < |ks| && ks[j] == a;
      assert ks[i] <= ks[j];
    }
  }
}
