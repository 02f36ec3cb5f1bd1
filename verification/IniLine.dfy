// One line of an INI file, as src/config.c takes it apart and puts it together.

module IniLine {
  import opened Bytes

  type Text = seq<Byte>

  const HASH: Byte := 35
  const SEMICOLON: Byte := 59
  const OPEN: Byte := 91
  const CLOSE: Byte := 93
  const EQUALS: Byte := 61
  const SPACE: Byte := 32
  const NEWLINE: Byte := 10

  function TrimLeft(s: Text): Text {
    if s != [] && IsSpace(s[0]) then TrimLeft(s[1..]) else s
  }

  function TrimRight(s: Text): Text {
    if s != [] && IsSpace(s[|s| - 1]) then TrimRight(s[..|s| - 1]) else s
  }

  /** What `trim` leaves. */
  function Trim(s: Text): Text {
    TrimRight(TrimLeft(s))
  }

  /** `trim`: the start moves right, then a terminator is written behind the last character that is
      not white space. */
  method TrimText(str: Text) returns (r: Text)
    ensures r == Trim(str)
  {
    var start := 0;
    while start < |str| && IsSpace(str[start])
      invariant start <= |str| && TrimLeft(str[start..]) == TrimLeft(str)
    {
      assert str[start..][1..] == str[start + 1..];
      start := start + 1;
    }
    var s := str[start..];
    if s == [] {
      return s;
    }
    var end := |s| - 1;
    assert s[..end + 1] == s;
    while end > 0 && IsSpace(s[end])
      invariant 0 <= end < |s| && TrimRight(s[..end + 1]) == TrimRight(s)
    {
      assert s[..end + 1][..end] == s[..end];
      end := end - 1;
    }
    return s[..end + 1];
  }

  /** A text up to a character, and from behind it; `strchr` finds the first one. */
  function UpTo(s: Text, c: Byte): Text {
    if s == [] || s[0] == c then [] else [s[0]] + UpTo(s[1..], c)
  }

  function Behind(s: Text, c: Byte): Text {
    if s == [] then [] else if s[0] == c then s[1..] else Behind(s[1..], c)
  }

  /** A value without the comment after it. */
  function WithoutComment(v: Text): Text {
    if HASH in v || SEMICOLON in v then Trim(UpToEither(v)) else v
  }

  function UpToEither(s: Text): Text {
    if s == [] || s[0] == HASH || s[0] == SEMICOLON then [] else [s[0]] + UpToEither(s[1..])
  }

  datatype Line = Header(name: Text) | Entry(key: Text, value: Text) | Other

  /** What the scans make of a line. A header keeps its brackets; what follows them is cut off. */
  function Meaning(line: Text): Line {
    var t := Trim(line);
    if t == [] || t[0] == HASH || t[0] == SEMICOLON then Other
    else if t[0] == OPEN then Header(if CLOSE in t then UpTo(t, CLOSE) + [CLOSE] else t)
    else if EQUALS in t then Entry(Trim(UpTo(t, EQUALS)), WithoutComment(Trim(Behind(t, EQUALS))))
    else Other
  }

  predicate IsBlank(line: Text) {
    Trim(line) == []
  }

  // ----- the lines that are written -----

  /** `"[%s]"` */
  function HeaderText(section: Text): Text {
    [OPEN] + section + [CLOSE]
  }

  /** The line for a key, with a comment if there is one. */
  function EntryText(key: Text, value: Text, comment: Text): Text {
    key + [SPACE, EQUALS, SPACE] + value + (if comment != [] then [SPACE, HASH, SPACE] + comment else []) + [NEWLINE]
  }

  predicate GoodKey(k: Text) {
    && k != [] && !White(k[0]) && !White(k[|k| - 1])
    && EQUALS !in k && k[0] != HASH && k[0] != SEMICOLON && k[0] != OPEN
  }

  predicate GoodValue(v: Text) {
    && HASH !in v && SEMICOLON !in v
    && (v != [] ==> !White(v[0]) && !White(v[|v| - 1]))
  }

  // ----- taking a line apart -----

  lemma {:induction false} TrimRightKeeps(a: Text, b: Text)
    requires a != [] && !IsSpace(a[|a| - 1])
    ensures TrimRight(a + b) == a + TrimRight(b)
    decreases |b|
  {
    if b == [] {
      assert a + b == a;
      assert a + TrimRight(b) == a;
    } else if IsSpace(b[|b| - 1]) {
      assert (a + b)[..|a + b| - 1] == a + b[..|b| - 1];
      TrimRightKeeps(a, b[..|b| - 1]);
    }
  }

  lemma {:induction false} UpToFirst(a: Text, c: Byte, b: Text)
    requires c !in a
    ensures UpTo(a + [c] + b, c) == a && Behind(a + [c] + b, c) == b
    decreases |a|
  {
    if a != [] {
      assert (a + [c] + b)[1..] == a[1..] + [c] + b;
      UpToFirst(a[1..], c, b);
      assert a == [a[0]] + a[1..];
    } else {
      assert (a + [c] + b)[1..] == b;
    }
  }

  lemma {:induction false} UpToMark(a: Text, c: Byte, b: Text)
    requires HASH !in a && SEMICOLON !in a && (c == 35 || c == 59)
    ensures UpToEither(a + [c] + b) == a
    decreases |a|
  {
    if a != [] {
      assert (a + [c] + b)[1..] == a[1..] + [c] + b;
      UpToMark(a[1..], c, b);
      assert a == [a[0]] + a[1..];
    }
  }

  /** What follows the equals sign in a written line, up to the newline. */
  function AfterEquals(value: Text, comment: Text): Text {
    [SPACE] + value + (if comment != [] then [SPACE, HASH, SPACE] + comment else []) + [NEWLINE]
  }

  lemma EntryParts(key: Text, value: Text, comment: Text)
    ensures EntryText(key, value, comment) == key + [SPACE] + [EQUALS] + AfterEquals(value, comment)
  {
    var c := if comment != [] then [SPACE, HASH, SPACE] + comment else [];
    assert EntryText(key, value, comment) == key + [SPACE, EQUALS, SPACE] + value + c + [NEWLINE];
    assert key + [SPACE, EQUALS, SPACE] == key + [SPACE] + [EQUALS] + [SPACE];
    var h := key + [SPACE] + [EQUALS];
    Assoc(h, [SPACE], value);
    Assoc(h, [SPACE] + value, c);
    Assoc(h, [SPACE] + value + c, [NEWLINE]);
  }

  lemma {:induction false} TrimRightIdempotent(s: Text)
    ensures TrimRight(TrimRight(s)) == TrimRight(s)
    decreases |s|
  {
    if s != [] && IsSpace(s[|s| - 1]) {
      TrimRightIdempotent(s[..|s| - 1]);
    }
  }

  /** Trimming on the right first makes no difference. */
  lemma {:induction false} TrimOfTrimRight(s: Text)
    ensures Trim(TrimRight(s)) == Trim(s)
    decreases |s|
  {
    if s != [] {
      if IsSpace(s[0]) {
        TrimRightOne(s);
        TrimOfTrimRight(s[1..]);
      } else {
        TrimRightKeeps([s[0]], s[1..]);
        assert s == [s[0]] + s[1..];
        TrimRightIdempotent(s);
      }
    }
  }

  /** Trimming on the right commutes with dropping a leading space. */
  lemma {:induction false} TrimRightOne(s: Text)
    requires s != [] && IsSpace(s[0])
    ensures TrimLeft(TrimRight(s)) == TrimLeft(TrimRight(s[1..]))
    decreases |s|
  {
    if IsSpace(s[|s| - 1]) {
      if |s| == 1 {
        assert s[..0] == [] && s[1..] == [];
      } else {
        assert s[1..][..|s| - 2] == s[..|s| - 1][1..];
        TrimRightOne(s[..|s| - 1]);
      }
    } else {
      assert |s| > 1;
    }
  }

  // ----- lines as people write them -----

  lemma {:induction false} TrimLeftBlanks(w: Text, s: Text)
    requires Blanks(w)
    ensures TrimLeft(w + s) == TrimLeft(s)
  {
    if w == [] {
      assert w + s == s;
    } else {
      assert (w + s)[1..] == w[1..] + s;
      TrimLeftBlanks(w[1..], s);
    }
  }

  lemma {:induction false} TrimRightBlanks(s: Text, w: Text)
    requires Blanks(w)
    ensures TrimRight(s + w) == TrimRight(s)
    decreases |w|
  {
    if w == [] {
      assert s + w == s;
    } else {
      assert (s + w)[..|s + w| - 1] == s + w[..|w| - 1];
      TrimRightBlanks(s, w[..|w| - 1]);
    }
  }

  /** White space on both sides of a text that neither begins nor ends with any. */
  lemma TrimBlanks(w: Text, s: Text, x: Text)
    requires Blanks(w) && Blanks(x) && (s != [] ==> !White(s[0]) && !White(s[|s| - 1]))
    ensures Trim(w + s + x) == s
  {
    assert w + s + x == w + (s + x);
    TrimLeftBlanks(w, s + x);
    if s == [] {
      assert s + x == x + [];
      TrimLeftBlanks(x, []);
    } else {
      TrimRightBlanks(s, x);
    }
  }

  /** White space in front of a line, and what is trimmed behind a text that does not end with any. */
  lemma TrimLine(w: Text, s: Text, rest: Text)
    requires Blanks(w) && s != [] && !White(s[0]) && !White(s[|s| - 1])
    ensures Trim(w + s + rest) == s + TrimRight(rest)
  {
    assert w + s + rest == w + (s + rest);
    TrimLeftBlanks(w, s + rest);
    TrimRightKeeps(s, rest);
  }

  lemma BlankRead(w: Text)
    requires Blanks(w)
    ensures Meaning(w) == Other && IsBlank(w)
  {
    TrimBlanks(w, [], []);
    assert w + [] + [] == w;
  }

  /** A line is blank exactly if it holds nothing but white space. */
  lemma {:induction false} BlankIs(line: Text)
    ensures IsBlank(line) <==> Blanks(line)
  {
    if Blanks(line) {
      BlankRead(line);
    } else {
      BlankIsSpaces(line);
      TrimLeftNothing(line);
    }
  }

  lemma {:induction false} TrimLeftNothing(s: Text)
    ensures TrimLeft(s) == [] ==> Blanks(s)
  {
    if s != [] {
      TrimLeftNothing(s[1..]);
    }
  }

  /** A comment line: the first text on it is a hash or a semicolon. */
  lemma CommentRead(w: Text, c: Byte, rest: Text)
    requires Blanks(w) && (c == 35 || c == 59)
    ensures Meaning(w + [c] + rest) == Other
  {
    TrimLine(w, [c], rest);
  }

  /** A line for a section: whatever follows the bracket is cut off. */
  lemma HeaderRead(w: Text, name: Text, rest: Text)
    requires Blanks(w) && 93 !in name
    ensures Meaning(w + [91] + name + [93] + rest) == Header([91] + name + [93])
  {
    var h := [91] + name + [93];
    assert w + [91] + name + [93] + rest == w + h + rest;
    TrimLine(w, h, rest);
    UpToFirst([91] + name, CLOSE, TrimRight(rest));
    assert (h + TrimRight(rest))[|h| - 1] == 93 && (h + TrimRight(rest))[0] == 91;
  }

  /** A line with text, but without an equals sign, that is neither a header nor a comment. */
  lemma TextRead(w: Text, t: Text, x: Text)
    requires Blanks(w) && Blanks(x) && t != [] && !White(t[0]) && !White(t[|t| - 1])
    requires 61 !in t && t[0] != 35 && t[0] != 59 && t[0] != 91
    ensures Meaning(w + t + x) == Other
  {
    TrimBlanks(w, t, x);
  }

  /** What a line with an equals sign is taken apart into. */
  lemma LineParts(w1: Text, k: Text, w2: Text, rest: Text)
    requires Blanks(w1) && Blanks(w2) && GoodKey(k)
    ensures Meaning(w1 + k + w2 + [61] + rest) == Entry(k, WithoutComment(Trim(TrimRight(rest))))
  {
    var head := k + w2 + [61];
    LineStart(w1, k, w2, rest);
    TrimLine(w1, head, rest);
    UpToFirst(k + w2, EQUALS, TrimRight(rest));
    TrimBlanks([], k, w2);
    assert [] + k + w2 == k + w2;
    hide WithoutComment;
    hide Trim;
    hide TrimRight;
    hide UpTo;
    hide Behind;
    var t := head + TrimRight(rest);
    assert t[0] == k[0] && t[|head| - 1] == 61;
  }

  lemma LineStart(w1: Text, k: Text, w2: Text, rest: Text)
    ensures w1 + k + w2 + [61] + rest == w1 + (k + w2 + [61]) + rest
  {
    Assoc(w1, k, w2);
    Assoc(w1, k + w2, [61]);
  }

  /** A line for a key, with any white space around the key and the value. */
  lemma EntryRead(w1: Text, k: Text, w2: Text, w3: Text, v: Text, w4: Text)
    requires Blanks(w1) && Blanks(w2) && Blanks(w3) && Blanks(w4) && GoodKey(k) && GoodValue(v)
    ensures Meaning(w1 + k + w2 + [61] + w3 + v + w4) == Entry(k, v)
  {
    var rest := w3 + v + w4;
    assert w1 + k + w2 + [61] + w3 + v + w4 == w1 + k + w2 + [61] + rest;
    LineParts(w1, k, w2, rest);
    TrimOfTrimRight(rest);
    TrimBlanks(w3, v, w4);
  }

  /** The same with a comment behind the value. */
  lemma EntryCommentRead(w1: Text, k: Text, w2: Text, w3: Text, v: Text, w4: Text, c: Byte, comment: Text)
    requires Blanks(w1) && Blanks(w2) && Blanks(w3) && Blanks(w4) && GoodKey(k) && GoodValue(v)
    requires c == 35 || c == 59
    ensures Meaning(w1 + k + w2 + [61] + w3 + v + w4 + [c] + comment) == Entry(k, v)
  {
    var rest := w3 + v + w4 + [c] + comment;
    assert w1 + k + w2 + [61] + w3 + v + w4 + [c] + comment == w1 + k + w2 + [61] + rest;
    LineParts(w1, k, w2, rest);
    TrimOfTrimRight(rest);
    CommentedValue(w3, v, w4, c, comment);
  }

  lemma CommentParts(w3: Text, v: Text, w4: Text, c: Byte, comment: Text)
    ensures var x := if v == [] then [] else v + w4;
            w3 + v + w4 + [c] + comment == (if v == [] then w3 + w4 else w3) + (x + [c]) + comment
  {
    if v == [] {
      assert w3 + v == w3 && [] + [c] == [c];
    } else {
      Assoc(w3, v, w4);
      Assoc(w3, v + w4, [c]);
    }
  }

  lemma MarkedValue(x: Text, c: Byte, y: Text)
    requires HASH !in x && SEMICOLON !in x && (c == 35 || c == 59)
    ensures WithoutComment(x + [c] + y) == Trim(x)
  {
    hide Trim;
    UpToMark(x, c, y);
    assert (x + [c] + y)[|x|] == c;
  }

  lemma CommentedValue(w3: Text, v: Text, w4: Text, c: Byte, comment: Text)
    requires Blanks(w3) && Blanks(w4) && GoodValue(v) && (c == 35 || c == 59)
    ensures WithoutComment(Trim(w3 + v + w4 + [c] + comment)) == v
  {
    hide Trim;
    hide TrimLeft;
    hide TrimRight;
    hide WithoutComment;
    var x := if v == [] then [] else v + w4;
    CommentParts(w3, v, w4, c, comment);
    TrimLine(if v == [] then w3 + w4 else w3, x + [c], comment);
    MarkedValue(x, c, TrimRight(comment));
    TrimBlanks([], v, if v == [] then [] else w4);
    assert [] + v + (if v == [] then [] else w4) == x;
  }

  // ----- that the lines that are written are read back -----

  /** The line that is written for a key is read as that key and value. */
  lemma EntryMeaning(key: Text, value: Text, comment: Text)
    requires GoodKey(key) && GoodValue(value)
    ensures Meaning(EntryText(key, value, comment)) == Entry(key, value)
  {
    hide Meaning;
    EntryParts(key, value, comment);
    var h := [] + key + [SPACE] + [61];
    assert h == key + [SPACE] + [EQUALS];
    if comment == [] {
      assert AfterEquals(value, comment) == [SPACE] + value + [NEWLINE];
      EntryRead([], key, [SPACE], [SPACE], value, [NEWLINE]);
      Assoc(h, [SPACE], value);
      Assoc(h, [SPACE] + value, [NEWLINE]);
    } else {
      var y := [SPACE] + comment + [NEWLINE];
      assert AfterEquals(value, comment) == [SPACE] + value + [SPACE] + [35] + y;
      EntryCommentRead([], key, [SPACE], [SPACE], value, [SPACE], 35, y);
      Assoc(h, [SPACE], value);
      Assoc(h, [SPACE] + value, [SPACE]);
      Assoc(h, [SPACE] + value + [SPACE], [35]);
      Assoc(h, [SPACE] + value + [SPACE] + [35], y);
    }
  }

  /** The line that is written for a section is read as its header. */
  lemma HeaderMeaning(section: Text)
    requires CLOSE !in section
    ensures Meaning(HeaderText(section) + [NEWLINE]) == Header(HeaderText(section))
  {
    HeaderRead([], section, [NEWLINE]);
    assert [] + [91] + section + [93] + [NEWLINE] == HeaderText(section) + [NEWLINE];
  }

  // ----- a line behind a text that has no newline -----

  lemma {:induction false} TrimLeftConcat(a: Text, b: Text)
    ensures TrimLeft(a + b) == if TrimLeft(a) == [] then TrimLeft(b) else TrimLeft(a) + b
    decreases |a|
  {
    if a == [] {
      assert a + b == b;
    } else {
      assert (a + b)[1..] == a[1..] + b;
      if IsSpace(a[0]) {
        TrimLeftConcat(a[1..], b);
      }
    }
  }

  lemma {:induction false} TrimLeftStarts(s: Text)
    ensures TrimLeft(s) != [] ==> !IsSpace(TrimLeft(s)[0])
  {
    if s != [] {
      TrimLeftStarts(s[1..]);
    }
  }

  lemma BlankIsSpaces(line: Text)
    ensures IsBlank(line) <==> TrimLeft(line) == []
  {
    var t := TrimLeft(line);
    TrimLeftStarts(line);
    if t != [] {
      TrimRightKeeps([t[0]], t[1..]);
      assert [t[0]] + t[1..] == t;
    }
  }

  /** White space before a line changes nothing. */
  lemma BlankBefore(blank: Text, line: Text)
    requires IsBlank(blank)
    ensures Meaning(blank + line) == Meaning(line) && Meaning(blank) == Other
  {
    BlankIsSpaces(blank);
    TrimLeftConcat(blank, line);
  }

  lemma {:induction false} UpToWithin(a: Text, b: Text, c: Byte)
    requires c in a
    ensures UpTo(a + b, c) == UpTo(a, c)
    decreases |a|
  {
    if a[0] != c {
      assert (a + b)[1..] == a[1..] + b;
      UpToWithin(a[1..], b, c);
    }
  }

  lemma {:induction false} TrimRightSplit(s: Text) returns (spaces: Text)
    ensures s == TrimRight(s) + spaces && forall i :: 0 <= i < |spaces| ==> IsSpace(spaces[i])
    decreases |s|
  {
    if s != [] && IsSpace(s[|s| - 1]) {
      spaces := TrimRightSplit(s[..|s| - 1]);
      spaces := spaces + [s[|s| - 1]];
    } else {
      spaces := [];
    }
  }

  /** A character of a text that is no white space is found in the trimmed text, at the same place. */
  lemma UpToTrimmed(s: Text, c: Byte)
    requires !IsSpace(c)
    ensures c in s ==> c in TrimRight(s) && UpTo(s, c) == UpTo(TrimRight(s), c)
  {
    var spaces := TrimRightSplit(s);
    if c in s {
      assert c in TrimRight(s);
      UpToWithin(TrimRight(s), spaces, c);
    }
  }

  /** What a text that is not blank leaves of its beginning, and a line behind it of its end. */
  lemma TrimJoined(last: Text, a: Text, b: Text)
    requires !IsBlank(last) && a != [] && !IsSpace(a[|a| - 1])
    ensures var t := TrimLeft(last);
            && t != [] && !IsSpace(t[0]) && Trim(last) != [] && Trim(last)[0] == t[0]
            && Trim(last + (a + b)) == t + a + TrimRight(b)
  {
    var t := TrimLeft(last);
    BlankIsSpaces(last);
    TrimLeftStarts(last);
    TrimLeftConcat(last, a + b);
    TrimRightKeeps([t[0]], t[1..]);
    assert [t[0]] + t[1..] == t;
    assert t + (a + b) == t + a + b;
    TrimRightKeeps(t + a, b);
  }

  lemma TrimJoinedKey(t: Text, key: Text)
    requires t != [] && !IsSpace(t[0]) && key != [] && !IsSpace(key[|key| - 1])
    ensures Trim(t + key + [SPACE]) == t + key != key
  {
    TrimRightKeeps(t + key, [SPACE]);
    assert [SPACE][..0] == [] && TrimRight([]) == [];
    assert t + key + [] == t + key;
    assert |t + key| > |key|;
  }

  /** A line for a key that is written behind a text without a newline is not read as a line for that
      key, unless the text was one, or was blank. */
  lemma JoinedEntry(last: Text, key: Text, value: Text, comment: Text)
    requires !IsBlank(last) && GoodKey(key)
    ensures var m := Meaning(last + EntryText(key, value, comment));
            m.Entry? && m.key == key ==> Meaning(last).Entry? && Meaning(last).key == key
  {
    var t, b := TrimLeft(last), TrimRight(AfterEquals(value, comment));
    EntryParts(key, value, comment);
    TrimJoined(last, key + [SPACE] + [EQUALS], AfterEquals(value, comment));
    UpToTrimmed(t, EQUALS);
    var rest := key + [SPACE] + [EQUALS] + b;
    var head := t + key + [SPACE];
    assert t + (key + [SPACE] + [EQUALS]) + b == t + rest == head + [EQUALS] + b;
    if EQUALS in t {
      UpToWithin(t, rest, EQUALS);
    } else {
      UpToFirst(head, EQUALS, b);
      TrimJoinedKey(t, key);
    }
    hide TrimLeft;
    hide TrimRight;
    hide UpTo;
    hide EntryText;
    hide WithoutComment;
    assert (head + [EQUALS] + b)[|head|] == EQUALS && (t + rest)[0] == t[0];
  }

  /** Likewise the header of a section. */
  lemma JoinedHeader(last: Text, section: Text)
    requires !IsBlank(last) && CLOSE !in section
    ensures Meaning(last + (HeaderText(section) + [NEWLINE])) == Header(HeaderText(section)) ==>
              Meaning(last) == Header(HeaderText(section))
  {
    var t, h := TrimLeft(last), HeaderText(section);
    assert [NEWLINE][..0] == [] && TrimRight([NEWLINE]) == TrimRight([]) == [];
    TrimJoined(last, h, [NEWLINE]);
    UpToTrimmed(t, CLOSE);
    assert t + h + [] == t + h && (t + h)[0] == t[0];
    assert (t + h)[|t + h| - 1] == CLOSE;
    if CLOSE in t {
      UpToWithin(t, h, CLOSE);
    } else {
      var inner := t + [OPEN] + section;
      assert t + h == inner + [CLOSE] + [];
      UpToFirst(inner, CLOSE, []);
      assert |inner + [CLOSE]| > |h|;
    }
  }
}
