// What CRC32C means: the register at the end is the remainder of a division of polynomials over
// GF(2), the definition in section 12.1 of RFC 3720, and a change within four bytes is always seen.
// A polynomial is the sequence of its coefficients, the highest first; a register is one with its
// lowest bit first, because the code is reflected.

module CrcPolynomial {
  import opened Crc32c

  type Poly = seq<bool>

  function Zeros(n: nat): (r: Poly)
    ensures |r| == n
  {
    seq(n, _ => false)
  }

  function Plus(a: Poly, b: Poly): (r: Poly)
    requires |a| == |b|
    ensures |r| == |a| && forall i :: 0 <= i < |a| ==> r[i] == (a[i] != b[i])
  {
    seq(|a|, i requires 0 <= i < |a| => a[i] != b[i])
  }

  /** The generator, of degree 32. */
  function Generator(): (g: Poly)
    ensures |g| == 33 && g[0]
  {
    [true] + Low(POLY, 32)
  }

  function Scale(b: bool): (r: Poly)
    ensures |r| == 33 && r[0] == b
  {
    if b then Generator() else Zeros(33)
  }

  /** A polynomial times the generator. */
  function Times(q: Poly): (r: Poly)
    ensures |r| == |q| + 32
  {
    if q == [] then Zeros(32)
    else
      var k := |q| - 1;
      Plus(Times(q[..k]) + [false], Zeros(k) + Scale(q[k]))
  }

  /** The register and the message as one polynomial, the message with 32 zeros appended. */
  function Dividend(c: bv32, m: seq<bool>): (r: Poly)
    ensures |r| == |m| + 32
  {
    Plus(Low(c, 32) + Zeros(|m|), m + Zeros(32))
  }

  /** The bits that decide, message bit by message bit, whether the generator is subtracted. */
  function Quotient(c: bv32, m: seq<bool>): (q: Poly)
    ensures |q| == |m|
  {
    if m == [] then []
    else
      var k := |m| - 1;
      Quotient(c, m[..k]) + [Bit(FeedAll(c, m[..k])) != m[k]]
  }

  // ----- registers as polynomials -----

  lemma {:induction false} LowXor(a: bv32, b: bv32, n: nat)
    ensures Low(Xor(a, b), n) == Plus(Low(a, n), Low(b, n))
    decreases n
  {
    hide Xor;
    hide Half;
    hide Bit;
    if n > 0 {
      XorParts(a, b);
      LowXor(Half(a), Half(b), n - 1);
    }
  }

  lemma FourBytes(x: bv32)
    ensures By8(By8(By8(By8(x)))) == 0
  {
  }

  lemma RestWord(x: bv32)
    ensures Rest(x, 32) == 0
  {
    hide Rest;
    hide By8;
    RestSplit(x, 8, 24);
    RestSplit(By8(x), 8, 16);
    RestSplit(By8(By8(x)), 8, 8);
    RestByte(x);
    RestByte(By8(x));
    RestByte(By8(By8(x)));
    RestByte(By8(By8(By8(x))));
    FourBytes(x);
  }

  lemma LowOne(x: bv32, n: nat)
    ensures Low(x, 1 + n) == [Bit(x)] + Low(Half(x), n) && Low(0, 1) == [false]
  {
  }

  lemma LowHalf(x: bv32)
    ensures Low(x, 32) + [false] == [Bit(x)] + Low(Half(x), 32)
  {
    hide Low;
    hide Rest;
    hide Half;
    hide Bit;
    RestWord(x);
    LowSplit(x, 32, 1);
    LowOne(x, 32);
    LowOne(x, 0);
  }

  /** One bit in the register is one step of the division. */
  lemma FeedStep(r: bv32, b: bool, j: nat)
    requires j < 33
    ensures ((Low(r, 32) + [false])[j] != (j == 0 && b)) ==
            (Scale(Bit(r) != b)[j] != ([false] + Low(Feed(r, b), 32))[j])
  {
    hide Low;
    hide Xor;
    hide Half;
    hide Bit;
    LowHalf(r);
    LowXor(Half(r), POLY, 32);
  }

  // ----- the division -----

  lemma DividendStep(c: bv32, m: seq<bool>, b: bool, i: nat)
    requires i < |m| + 33
    ensures Dividend(c, m + [b])[i] == ((Dividend(c, m) + [false])[i] != (i == |m| && b))
  {
    hide Low;
  }

  lemma TimesStep(q: Poly, f: bool)
    ensures Times(q + [f]) == Plus(Times(q) + [false], Zeros(|q|) + Scale(f))
  {
    hide Scale;
    assert (q + [f])[..|q|] == q;
  }

  lemma QuotientStep(c: bv32, m: seq<bool>, b: bool)
    ensures Quotient(c, m + [b]) == Quotient(c, m) + [Bit(FeedAll(c, m)) != b]
    ensures FeedAll(c, m + [b]) == Feed(FeedAll(c, m), b)
  {
    hide Feed;
    assert (m + [b])[..|m|] == m;
    FeedAppend(c, m, [b]);
  }

  lemma {:induction false} Division(c: bv32, m: seq<bool>)
    ensures Dividend(c, m) == Plus(Times(Quotient(c, m)), Zeros(|m|) + Low(FeedAll(c, m), 32))
    decreases |m|
  {
    if m == [] {
      assert Low(c, 32) + [] == Low(c, 32);
    } else {
      var n := |m| - 1;
      var p, b := m[..n], m[n];
      assert m == p + [b];
      Division(c, p);
      DivisionStep(c, p, b);
    }
  }

  lemma DivisionStep(c: bv32, m: seq<bool>, b: bool)
    requires Dividend(c, m) == Plus(Times(Quotient(c, m)), Zeros(|m|) + Low(FeedAll(c, m), 32))
    ensures Dividend(c, m + [b]) == Plus(Times(Quotient(c, m + [b])), Zeros(|m + [b]|) + Low(FeedAll(c, m + [b]), 32))
  {
    hide Dividend;
    hide Times;
    hide Quotient;
    hide FeedAll;
    hide Low;
    hide Scale;
    hide Feed;
    hide Bit;
    QuotientStep(c, m, b);
    var q, r, n := Quotient(c, m), FeedAll(c, m), |m|;
    var f := Bit(r) != b;
    TimesStep(q, f);
    var left := Dividend(c, m + [b]);
    var right := Plus(Times(q + [f]), Zeros(n + 1) + Low(Feed(r, b), 32));
    forall i | 0 <= i < n + 33 ensures left[i] == right[i] {
      DividendStep(c, m, b, i);
      if i >= n {
        FeedStep(r, b, i - n);
      }
    }
  }

  // ----- the remainder is the only one -----

  lemma TimesLeading(q: Poly, f: bool, i: nat)
    requires i <= |q|
    ensures Times(q + [f])[i] == (Times(q)[i] != (i == |q| && f))
  {
    hide Times;
    TimesStep(q, f);
  }

  /** The leading coefficients of a multiple of the generator determine it. */
  lemma {:induction false} LeadingDetermine(p: Poly, q: Poly)
    requires |p| == |q| && forall i :: 0 <= i < |p| ==> Times(p)[i] == Times(q)[i]
    ensures p == q
    decreases |p|
  {
    hide Times;
    if p != [] {
      var k := |p| - 1;
      assert p == p[..k] + [p[k]] && q == q[..k] + [q[k]];
      forall i | 0 <= i < k ensures Times(p[..k])[i] == Times(q[..k])[i] {
        TimesLeading(p[..k], p[k], i);
        TimesLeading(q[..k], q[k], i);
      }
      LeadingDetermine(p[..k], q[..k]);
      TimesLeading(p[..k], p[k], k);
      TimesLeading(q[..k], q[k], k);
    }
  }

  lemma DivisionUnique(p: Poly, r: Poly, q: Poly, s: Poly)
    requires |p| == |q| && |r| == |s| == 32
    requires Plus(Times(p), Zeros(|p|) + r) == Plus(Times(q), Zeros(|q|) + s)
    ensures p == q && r == s
  {
    hide Times;
    var n := |p|;
    var a, b := Plus(Times(p), Zeros(n) + r), Plus(Times(q), Zeros(n) + s);
    forall i | 0 <= i < n ensures Times(p)[i] == Times(q)[i] {
      assert a[i] == b[i];
    }
    LeadingDetermine(p, q);
    forall i | 0 <= i < 32 ensures r[i] == s[i] {
      assert a[n + i] == b[n + i] && (Zeros(n) + r)[n + i] == r[i] && (Zeros(n) + s)[n + i] == s[i];
    }
  }

  ghost predicate IsRemainder(c: bv32, m: seq<bool>, r: Poly)
    requires |r| == 32
  {
    exists q: Poly :: |q| == |m| && Dividend(c, m) == Plus(Times(q), Zeros(|m|) + r)
  }

  /** The code of a buffer is the remainder of the buffer, as a polynomial, divided by the generator:
      exactly one polynomial of degree below 32 is that, and the register holds it. */
  lemma CrcIsRemainder(c: bv32, s: seq<Octet>, r: Poly)
    requires |r| == 32
    ensures IsRemainder(c, MessageBits(s), r) <==> r == Low(Crc(c, s), 32)
  {
    hide Dividend;
    hide Times;
    hide Quotient;
    hide FeedAll;
    hide MessageBits;
    hide Low;
    var m := MessageBits(s);
    Division(c, m);
    if IsRemainder(c, m, r) {
      var q: Poly :| |q| == |m| && Dividend(c, m) == Plus(Times(q), Zeros(|m|) + r);
      DivisionUnique(q, r, Quotient(c, m), Low(FeedAll(c, m), 32));
    }
  }

  // ----- which changes are seen -----

  lemma RawFeed(a: bv32, b: bv32)
    ensures (a >> 1) ^ POLY == (b >> 1) ^ POLY ==> a >> 1 == b >> 1
    ensures (a >> 1) ^ POLY != b >> 1
    ensures a >> 1 == b >> 1 && (a & 1 == 1 <==> b & 1 == 1) ==> a == b
  {
  }

  /** Different registers stay different. */
  lemma FeedKeepsApart(a: bv32, b: bv32, bit: bool)
    requires Feed(a, bit) == Feed(b, bit)
    ensures a == b
  {
    RawFeed(a, b);
    RawFeed(b, a);
  }

  lemma {:induction false} FeedAllKeepsApart(a: bv32, b: bv32, m: seq<bool>)
    requires FeedAll(a, m) == FeedAll(b, m)
    ensures a == b
    decreases |m|
  {
    hide Feed;
    if m != [] {
      FeedAllKeepsApart(Feed(a, m[0]), Feed(b, m[0]), m[1..]);
      FeedKeepsApart(a, b, m[0]);
    }
  }

  lemma {:induction false} ShiftsKeepApart(a: bv32, b: bv32, n: nat)
    requires Shifts(a, n) == Shifts(b, n)
    ensures a == b
    decreases n
  {
    hide Feed;
    if n > 0 {
      ShiftsKeepApart(Feed(a, false), Feed(b, false), n - 1);
      FeedKeepsApart(a, b, false);
    }
  }

  lemma XorKeepsApart(c: bv32, a: bv32, b: bv32)
    requires Xor(c, a) == Xor(c, b)
    ensures a == b
  {
  }

  lemma JoinKeepsApart(a: Octet, b: Octet, c: Octet, d: Octet, e: Octet, f: Octet, g: Octet, h: Octet)
    requires Join(a, b, c, d) == Join(e, f, g, h)
    ensures a == e && b == f && c == g && d == h
  {
  }

  lemma WordShifts(c: bv32, s: seq<Octet>)
    requires |s| == 4
    ensures Crc(c, s) == Shifts(Xor(c, Load32(s)), 32)
  {
    hide FeedAll;
    hide MessageBits;
    hide Low;
    hide Shifts;
    hide Rest;
    hide Xor;
    hide Load32;
    WordBits(s);
    ShiftsFeed(c, Load32(s), 32);
    RestWord(Load32(s));
    XorZero(FeedAll(c, Low(Load32(s), 32)));
  }

  /** A change within four consecutive bytes changes the code, wherever it happens. */
  lemma BurstDetected(c: bv32, a: seq<Octet>, x: seq<Octet>, y: seq<Octet>, b: seq<Octet>)
    requires |x| == |y| == 4
    ensures Crc(c, a + x + b) == Crc(c, a + y + b) <==> x == y
  {
    hide FeedAll;
    hide MessageBits;
    hide Shifts;
    hide Xor;
    hide Join;
    if Crc(c, a + x + b) == Crc(c, a + y + b) {
      CrcAppend(c, a + x, b);
      CrcAppend(c, a + y, b);
      FeedAllKeepsApart(Crc(c, a + x), Crc(c, a + y), MessageBits(b));
      CrcAppend(c, a, x);
      CrcAppend(c, a, y);
      var r := Crc(c, a);
      WordShifts(r, x);
      WordShifts(r, y);
      ShiftsKeepApart(Xor(r, Load32(x)), Xor(r, Load32(y)), 32);
      XorKeepsApart(r, Load32(x), Load32(y));
      JoinKeepsApart(x[0], x[1], x[2], x[3], y[0], y[1], y[2], y[3]);
    }
  }
}
