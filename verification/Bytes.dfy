// Bytes, C strings and the orders on them that the library's data structures share.

module Bytes {

  /** An `unsigned char`. */
  type Byte = x: int | 0 <= x < 256

  datatype Option<+T> = None | Some(value: T)

  /** The bytes of a C string without its terminator. */
  predicate IsCString(s: seq<Byte>) {
    forall i :: 0 <= i < |s| ==> s[i] != 0
  }

  /** A C string with its terminator: the only zero byte is the last one. */
  predicate IsKey(k: seq<Byte>) {
    && |k| > 0
    && k[|k| - 1] == 0
    && forall i :: 0 <= i < |k| - 1 ==> k[i] != 0
  }

  /** `pgvictoria_append(NULL, s)`: a copy of a C string; for the empty one the result stays NULL. */
  function CopyText(s: seq<Byte>): Option<seq<Byte>> {
    if s == [] then None else Some(s)
  }

  function Min(a: nat, b: nat): nat {
    if a <= b then a else b
  }

  /** `a` and `b` agree before position `i`, and `a` is smaller there (a string that ends is smaller). */
  predicate SmallerAt(a: seq<Byte>, b: seq<Byte>, i: nat) {
    && i <= |a|
    && i < |b|
    && a[..i] == b[..i]
    && (i == |a| || a[i] < b[i])
  }

  /** Unsigned-byte lexicographic order. */
  ghost predicate LexLess(a: seq<Byte>, b: seq<Byte>) {
    exists i: nat :: SmallerAt(a, b, i)
  }

  lemma LexLessAt(a: seq<Byte>, b: seq<Byte>, i: nat)
    requires SmallerAt(a, b, i)
    ensures LexLess(a, b)
  {
  }

  lemma TakeEqual(a: seq<Byte>, b: seq<Byte>, n: nat)
    requires n <= |a| && n <= |b|
    ensures a[..n] == b[..n] <==> forall i :: 0 <= i < n ==> a[i] == b[i]
  {
    assert a[..n] == b[..n] ==> forall i :: 0 <= i < n ==> a[..n][i] == a[i] && b[..n][i] == b[i];
  }

  /** Two strings that first differ at one place do not first differ, the other way, at another. */
  lemma SmallerAtAsymmetric(a: seq<Byte>, b: seq<Byte>, i: nat, j: nat)
    requires SmallerAt(a, b, i)
    ensures !SmallerAt(b, a, j)
  {
    TakeEqual(a, b, i);
    if j <= |b| && j < |a| {
      TakeEqual(a, b, j);
    }
  }

  /** The order is a strict one: nothing is below itself, and no two strings are below each other. */
  lemma LexLessAsymmetric(a: seq<Byte>, b: seq<Byte>)
    requires LexLess(a, b)
    ensures a != b && !LexLess(b, a)
  {
    var i: nat :| SmallerAt(a, b, i);
    forall j: nat ensures !SmallerAt(b, a, j) {
      SmallerAtAsymmetric(a, b, i, j);
    }
  }

  /** The same order, computed as `strcmp` does. */
  predicate StrLess(a: seq<Byte>, b: seq<Byte>) {
    b != [] && (a == [] || a[0] < b[0] || (a[0] == b[0] && StrLess(a[1..], b[1..])))
  }

  lemma {:induction false} StrLessIsLexLess(a: seq<Byte>, b: seq<Byte>)
    ensures StrLess(a, b) <==> LexLess(a, b)
  {
    if a != [] && b != [] && a[0] == b[0] {
      StrLessIsLexLess(a[1..], b[1..]);
      if LexLess(a[1..], b[1..]) {
        var i: nat :| SmallerAt(a[1..], b[1..], i);
        assert a[..i + 1] == [a[0]] + a[1..][..i] && b[..i + 1] == [b[0]] + b[1..][..i];
        LexLessAt(a, b, i + 1);
      }
      if LexLess(a, b) {
        var i: nat :| SmallerAt(a, b, i);
        assert i > 0;
        assert a[1..][..i - 1] == a[..i][1..] && b[1..][..i - 1] == b[..i][1..];
        LexLessAt(a[1..], b[1..], i - 1);
      }
    } else if StrLess(a, b) {
      LexLessAt(a, b, 0);
    } else if LexLess(a, b) {
      var i: nat :| SmallerAt(a, b, i);
      TakeEqual(a, b, i);
    }
  }

  lemma {:induction false} StrLessTransitive(a: seq<Byte>, b: seq<Byte>, c: seq<Byte>)
    requires StrLess(a, b) && StrLess(b, c)
    ensures StrLess(a, c)
  {
    if a != [] && a[0] == b[0] == c[0] {
      StrLessTransitive(a[1..], b[1..], c[1..]);
    }
  }

  lemma {:induction false} StrLessTotal(a: seq<Byte>, b: seq<Byte>)
    ensures a == b || StrLess(a, b) || StrLess(b, a)
  {
    if a != [] && b != [] && a[0] == b[0] {
      StrLessTotal(a[1..], b[1..]);
      assert a == [a[0]] + a[1..] && b == [b[0]] + b[1..];
    }
  }

  // ----- runs of characters -----

  /** `isspace` in the C locale. */
  predicate IsSpace(c: Byte) { c == 32 || 9 <= c <= 13 }

  /** The white space of the C locale, by its numbers: space, tab, newline, vertical tab, form feed and
      carriage return. */
  predicate White(c: Byte) { c == 32 || c == 9 || c == 10 || c == 11 || c == 12 || c == 13 }

  predicate Blanks(w: seq<Byte>) {
    forall i :: 0 <= i < |w| ==> White(w[i])
  }

  /** What is left after the longest run of characters of a kind. */
  function SkipWhile(r: seq<Byte>, p: Byte -> bool): (q: seq<Byte>)
    ensures |q| <= |r|
    ensures q == [] || !p(q[0])
  {
    if r != [] && p(r[0]) then SkipWhile(r[1..], p) else r
  }

  /** The longest run of characters of a kind. */
  function TakeWhile(r: seq<Byte>, p: Byte -> bool): (q: seq<Byte>)
    ensures q + SkipWhile(r, p) == r
  {
    if r != [] && p(r[0]) then [r[0]] + TakeWhile(r[1..], p) else []
  }

  lemma {:induction false} RunEnds(a: seq<Byte>, r: seq<Byte>, p: Byte -> bool)
    requires forall i :: 0 <= i < |a| ==> p(a[i])
    requires r == [] || !p(r[0])
    ensures TakeWhile(a + r, p) == a && SkipWhile(a + r, p) == r
  {
    if a == [] {
      assert a + r == r;
    } else {
      assert (a + r)[1..] == a[1..] + r;
      RunEnds(a[1..], r, p);
    }
  }

  lemma {:induction false} SkipOver(a: seq<Byte>, r: seq<Byte>, p: Byte -> bool)
    requires forall i :: 0 <= i < |a| ==> p(a[i])
    ensures SkipWhile(a + r, p) == SkipWhile(r, p)
  {
    if a == [] {
      assert a + r == r;
    } else {
      assert (a + r)[1..] == a[1..] + r;
      SkipOver(a[1..], r, p);
    }
  }

  /** White space is what `isspace` accepts. */
  lemma BlanksSkipped(w: seq<Byte>, r: seq<Byte>)
    requires Blanks(w) && (r == [] || !White(r[0]))
    ensures SkipWhile(w + r, IsSpace) == r
  {
    SkipOver(w, r, IsSpace);
    assert r == [] || !IsSpace(r[0]);
  }

  lemma TakeWhileAll(r: seq<Byte>, p: Byte -> bool)
    ensures forall i :: 0 <= i < |TakeWhile(r, p)| ==> p(TakeWhile(r, p)[i])
  {
  }

  lemma Assoc(a: seq<Byte>, b: seq<Byte>, c: seq<Byte>)
    ensures a + b + c == a + (b + c)
  {
  }
}
