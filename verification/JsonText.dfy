// The lexical level of json.c: white space, escapes and decimal numbers, each with the reader and
// the writer, and the lemma that the one undoes the other.

module JsonText {
  import opened Bytes

  type Text = seq<Byte>

  const QUOTE: Byte := 34
  const BACKSLASH: Byte := 92
  const NEWLINE: Byte := 10
  const TAB: Byte := 9
  const RETURN: Byte := 13
  const SPACE: Byte := 32
  const COMMA: Byte := 44
  const COLON: Byte := 58
  const LBRACE: Byte := 123
  const RBRACE: Byte := 125
  const LBRACKET: Byte := 91
  const RBRACKET: Byte := 93
  const MINUS: Byte := 45
  const PLUS: Byte := 43
  const DOT: Byte := 46

  predicate IsDigit(c: Byte) { 48 <= c <= 57 }

  predicate IsLower(c: Byte) { 97 <= c <= 122 }

  predicate IsNumberChar(c: Byte) { IsDigit(c) || c == DOT || c == MINUS || c == PLUS }

  // ----- escapes -----

  /** The letter that stands for an escaped character, as `pgvictoria_escape_string` writes it. */
  function EscapeLetter(c: Byte): Option<Byte> {
    if c == QUOTE || c == BACKSLASH then Some(c)
    else if c == NEWLINE then Some(110)
    else if c == TAB then Some(116)
    else if c == RETURN then Some(114)
    else None
  }

  /** The character that an escape letter stands for, as `handle_escape_char` reads it. */
  function Unescape(c: Byte): Option<Byte> {
    if c == QUOTE || c == BACKSLASH then Some(c)
    else if c == 110 then Some(NEWLINE)
    else if c == 116 then Some(TAB)
    else if c == 114 then Some(RETURN)
    else None
  }

  /** `pgvictoria_escape_string`. */
  function Escape(s: Text): Text {
    if s == [] then []
    else EscapeOne(s[0]) + Escape(s[1..])
  }

  /** The loops of the parser over a key or a string: the characters up to the closing quote, and
      the text from that quote on. */
  function Unquote(r: Text): (u: Option<(Text, Text)>)
    ensures u.Some? ==> 0 < |u.value.1| <= |r| && u.value.1[0] == QUOTE
  {
    if r == [] then None
    else if r[0] == QUOTE then Some(([], r))
    else if r[0] == BACKSLASH then
      if |r| < 2 || Unescape(r[1]).None? then None
      else
        var rest := Unquote(r[2..]);
        if rest.None? then None else Some(([Unescape(r[1]).value] + rest.value.0, rest.value.1))
    else
      var rest := Unquote(r[1..]);
      if rest.None? then None else Some(([r[0]] + rest.value.0, rest.value.1))
  }

  lemma UnquotePlain(c: Byte, r: Text)
    requires c != QUOTE && c != BACKSLASH && Unquote(r).Some?
    ensures Unquote([c] + r) == Some(([c] + Unquote(r).value.0, Unquote(r).value.1))
  {
    assert ([c] + r)[1..] == r;
  }

  lemma UnquoteEscape(l: Byte, r: Text)
    requires Unescape(l).Some? && Unquote(r).Some?
    ensures Unquote([BACKSLASH, l] + r) == Some(([Unescape(l).value] + Unquote(r).value.0, Unquote(r).value.1))
  {
    assert ([BACKSLASH, l] + r)[2..] == r;
  }

  /** One character as `pgvictoria_escape_string` writes it. */
  function EscapeOne(c: Byte): Text {
    if EscapeLetter(c).Some? then [BACKSLASH, EscapeLetter(c).value] else [c]
  }

  /** The escapes: a backslash and a letter for the quote, the backslash, newline, tab and carriage return;
      every other character stands for itself. */
  lemma EscapeIs(c: Byte)
    ensures Escape([c]) ==
            if c == 34 then [92, 34] else if c == 92 then [92, 92] else if c == 10 then [92, 110]
            else if c == 9 then [92, 116] else if c == 13 then [92, 114] else [c]
  {
    assert [c][1..] == [] && EscapeOne(c) + [] == EscapeOne(c);
  }

  lemma {:induction false} EscapeConcat(a: Text, b: Text)
    ensures Escape(a + b) == Escape(a) + Escape(b)
    decreases |a|
  {
    hide EscapeOne;
    if a == [] {
      assert a + b == b;
    } else {
      assert (a + b)[1..] == a[1..] + b;
      EscapeConcat(a[1..], b);
      Assoc(EscapeOne(a[0]), Escape(a[1..]), Escape(b));
    }
  }

  lemma EscapeStep(s: Text, tail: Text)
    requires s != []
    ensures Escape(s) + tail == EscapeOne(s[0]) + (Escape(s[1..]) + tail)
  {
    hide EscapeOne;
    Assoc(EscapeOne(s[0]), Escape(s[1..]), tail);
  }

  lemma LetterInverse(c: Byte)
    ensures EscapeLetter(c).Some? ==> Unescape(EscapeLetter(c).value) == Some(c)
    ensures EscapeLetter(c).None? ==> c != QUOTE && c != BACKSLASH
  {
  }

  /** Reading an escaped string gives the string back, whatever follows its closing quote. */
  lemma {:induction false} UnquoteEscaped(s: Text, r: Text)
    ensures Unquote(Escape(s) + ([QUOTE] + r)) == Some((s, [QUOTE] + r))
  {
    var tail := [QUOTE] + r;
    if s == [] {
      assert Escape(s) + tail == tail;
    } else {
      UnquoteEscapedStep(s, tail, s[1..]);
      UnquoteEscaped(s[1..], r);
    }
  }

  lemma UnquoteEscapedStep(s: Text, tail: Text, t: Text)
    requires s != [] && t == s[1..]
    ensures Unquote(Escape(t) + tail) == Some((t, tail)) ==> Unquote(Escape(s) + tail) == Some((s, tail))
  {
    hide Unquote;
    hide Escape;
    hide EscapeLetter;
    hide Unescape;
    EscapeStep(s, tail);
    LetterInverse(s[0]);
    assert [s[0]] + t == s;
    var rest := Escape(t) + tail;
    if Unquote(rest) == Some((t, tail)) {
      if EscapeLetter(s[0]).Some? {
        UnquoteEscape(EscapeLetter(s[0]).value, rest);
      } else {
        UnquotePlain(s[0], rest);
      }
    }
  }

  // ----- integers -----

  const INT64_MAX: int := 0x7FFF_FFFF_FFFF_FFFF
  const INT64_MIN: int := -0x8000_0000_0000_0000

  function Digits(n: nat): Text {
    if n < 10 then [48 + n] else Digits(n / 10) + [48 + n % 10]
  }

  /** `"%" PRId64`. */
  function Decimal(n: int): Text {
    if n < 0 then [MINUS] + Digits(-n) else Digits(n)
  }

  /** The value of a run of digits. */
  function DigitsValue(s: Text): int
    requires forall i :: 0 <= i < |s| ==> IsDigit(s[i])
  {
    if s == [] then 0 else DigitsValue(s[..|s| - 1]) * 10 + (s[|s| - 1] as int - 48)
  }

  function Clamp64(n: int): int {
    if n > INT64_MAX then INT64_MAX else if n < INT64_MIN then INT64_MIN else n
  }

  /** The value of the digits a text starts with. */
  function ScanDigits(s: Text): Option<int> {
    TakeWhileAll(s, IsDigit);
    if TakeWhile(s, IsDigit) == [] then None else Some(DigitsValue(TakeWhile(s, IsDigit)))
  }

  /** `sscanf` with `"%" PRId64` on a text without white space: an optional sign and at least one
      digit; what follows the digits is ignored, and a value out of range is clamped. */
  function ScanInt(s: Text): Option<int> {
    if s == [] then None
    else
      var body := if s[0] == MINUS || s[0] == PLUS then s[1..] else s;
      var n := ScanDigits(body);
      if n.None? then None else Some(Clamp64(if s[0] == MINUS then -n.value else n.value))
  }

  lemma {:induction false} DigitsAreDigits(n: nat)
    ensures Digits(n) != [] && forall i :: 0 <= i < |Digits(n)| ==> IsDigit(Digits(n)[i])
    ensures DigitsValue(Digits(n)) == n
  {
    if n < 10 {
      assert DigitsValue([]) == 0;
      assert Digits(n)[..0] == [];
    } else {
      DigitsAreDigits(n / 10);
      var ds := Digits(n);
      assert ds[..|ds| - 1] == Digits(n / 10);
    }
  }

  lemma DecimalChars(n: int)
    ensures Decimal(n) != [] && (IsDigit(Decimal(n)[0]) || Decimal(n)[0] == MINUS)
    ensures forall i :: 0 <= i < |Decimal(n)| ==> IsNumberChar(Decimal(n)[i]) && Decimal(n)[i] != DOT
  {
    DigitsAreDigits(if n < 0 then -n else n);
    hide Digits;
  }

  lemma {:induction false} NoLeadingZero(n: nat)
    ensures |Digits(n)| > 1 ==> Digits(n)[0] != 48
  {
    if n >= 10 {
      NoLeadingZero(n / 10);
      DigitsAreDigits(n / 10);
    }
  }

  /** The decimal text: a minus sign for a negative number, then the digits of its size, without zeros in
      front. */
  lemma DecimalIs(n: int)
    ensures var t := Decimal(n);
            var ds := if n < 0 then t[1..] else t;
            && (n < 0 ==> t[0] == 45)
            && (forall i :: 0 <= i < |ds| ==> 48 <= ds[i] <= 57)
            && DigitsValue(ds) == (if n < 0 then -n else n) && ds != [] && (|ds| > 1 ==> ds[0] != 48)
  {
    var m := if n < 0 then -n else n;
    DigitsAreDigits(m);
    NoLeadingZero(m);
    hide Digits;
    hide DigitsValue;
    assert n < 0 ==> Decimal(n)[1..] == Digits(m);
  }

  lemma TakeDigits(m: nat)
    ensures TakeWhile(Digits(m), IsDigit) == Digits(m) && Digits(m) != [] && IsDigit(Digits(m)[0])
  {
    hide TakeWhile;
    DigitsAreDigits(m);
    RunEnds(Digits(m), [], IsDigit);
    assert Digits(m) + [] == Digits(m);
  }

  lemma ScanOwnDigits(m: nat)
    ensures ScanDigits(Digits(m)) == Some(m) && Digits(m) != [] && IsDigit(Digits(m)[0])
  {
    hide Digits;
    hide DigitsValue;
    hide TakeWhile;
    DigitsAreDigits(m);
    TakeDigits(m);
  }

  /** A 64-bit integer is read back as it was written. */
  lemma ScanDecimal(n: int)
    requires INT64_MIN <= n <= INT64_MAX
    ensures ScanInt(Decimal(n)) == Some(n)
  {
    hide Digits;
    hide ScanDigits;
    var m := if n < 0 then -n else n;
    ScanOwnDigits(m);
    if n < 0 {
      assert Decimal(n)[1..] == Digits(m);
    }
  }
}
