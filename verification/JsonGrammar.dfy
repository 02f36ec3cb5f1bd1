// The texts that the parser of json.c reads, as people and other programs write them: the grammar of
// RFC 8259, sections 2 to 7, with any white space between the tokens, as far as the parser goes.

module JsonGrammar {
  import opened Bytes
  import opened JsonText
  import opened Json
  import opened JsonRoundTrip

  /** A character of a string: as it is, or a backslash and a letter. */
  datatype Piece = Plain(c: Byte) | Escaped(letter: Byte)

  /** A text with what it means: every token, and the white space between them. */
  datatype Doc =
    | DNull
    | DTrue
    | DFalse
    | DString(ps: seq<Piece>)
    | DNumber(sign: Text, whole: Text, fraction: Option<Text>)
    | DObject(ms: seq<Entry>, w: Text)
    | DArray(es: seq<Element>, w: Text)

  /** `"key" : value` with the white space before the key, around the colon and behind the value. */
  datatype Entry = Entry(before: Text, key: seq<Piece>, colon: Text, gap: Text, val: Doc, behind: Text)

  datatype Element = Element(before: Text, val: Doc, behind: Text)

  // ----- the text -----

  function Pieces(ps: seq<Piece>): Text {
    if ps == [] then []
    else (match ps[0] case Plain(c) => [c] case Escaped(l) => [92, l]) + Pieces(ps[1..])
  }

  function Write(d: Doc): Text
    decreases d
  {
    match d
    case DNull => [110, 117, 108, 108]
    case DTrue => [116, 114, 117, 101]
    case DFalse => [102, 97, 108, 115, 101]
    case DString(ps) => [34] + Pieces(ps) + [34]
    case DNumber(sign, whole, fraction) => sign + whole + (if fraction.Some? then [46] + fraction.value else [])
    case DObject(ms, w) => [123] + Entries(ms, true) + w + [125]
    case DArray(es, w) => [91] + Elements(es, true) + w + [93]
  }

  /** The entries of an object, with a comma before all but the first. */
  function Entries(ms: seq<Entry>, first: bool): Text
    decreases ms
  {
    if ms == [] then []
    else
      var m := ms[0];
      (if first then [] else [44]) + m.before + [34] + Pieces(m.key) + [34] + m.colon + [58] + m.gap + Write(m.val) + m.behind
      + Entries(ms[1..], false)
  }

  function Elements(es: seq<Element>, first: bool): Text
    decreases es
  {
    if es == [] then []
    else (if first then [] else [44]) + es[0].before + Write(es[0].val) + es[0].behind + Elements(es[1..], false)
  }

  // ----- what it means -----

  function Letter(l: Byte): Byte {
    if l == 110 then 10 else if l == 116 then 9 else if l == 114 then 13 else l
  }

  function Chars(ps: seq<Piece>): Text {
    if ps == [] then [] else [match ps[0] case Plain(c) => c case Escaped(l) => Letter(l)] + Chars(ps[1..])
  }

  /** An integer is clamped to 64 bits. */
  function IntOf(negative: bool, n: int): int {
    var i := if negative then -n else n;
    if i > 9223372036854775807 then 9223372036854775807
    else if i < -9223372036854775808 then -9223372036854775808
    else i
  }

  function Denotes(d: Doc): Value
    requires Good(d)
    decreases d
  {
    match d
    case DNull => Null
    case DTrue => Bool(true)
    case DFalse => Bool(false)
    case DString(ps) => if ps == [] then Null else Str(Chars(ps))
    case DNumber(sign, whole, fraction) =>
      if fraction.Some? then Double(sign + whole + [46] + fraction.value) else Int(IntOf(sign == [45], DigitsValue(whole)))
    case DObject(ms, _) => Nested(ItemOf(MembersOf(ms, [])))
    case DArray(es, _) => Nested(ArrayOf(ValuesOf(es)))
  }

  /** The members that the entries make, one after the other; a later one with the same key replaces. */
  function MembersOf(ms: seq<Entry>, done: seq<Member>): seq<Member>
    requires GoodEntries(ms, true) || GoodEntries(ms, false)
    decreases ms
  {
    if ms == [] then done else MembersOf(ms[1..], Put(done, Chars(ms[0].key), Denotes(ms[0].val)))
  }

  function ValuesOf(es: seq<Element>): seq<Value>
    requires GoodElements(es, true) || GoodElements(es, false)
    decreases es
  {
    if es == [] then [] else [Denotes(es[0].val)] + ValuesOf(es[1..])
  }

  // ----- well-formed texts -----

  predicate Numerals(s: Text) {
    forall i :: 0 <= i < |s| ==> 48 <= s[i] <= 57
  }

  predicate GoodPieces(ps: seq<Piece>) {
    forall i :: 0 <= i < |ps| ==>
      match ps[i]
      case Plain(c) => c != 34 && c != 92
      case Escaped(l) => l == 34 || l == 92 || l == 110 || l == 116 || l == 114
  }

  /** What the parser passes over between a key and its colon, and between the colon and the value. */
  predicate QuotesOrBlanks(w: Text) {
    forall i :: 0 <= i < |w| ==> w[i] == 34 || White(w[i])
  }

  predicate ColonsOrBlanks(w: Text) {
    forall i :: 0 <= i < |w| ==> w[i] == 58 || White(w[i])
  }

  /** A byte that no value begins with. */
  predicate Filler(c: Byte) {
    && c != 34 && c != 91 && c != 123 && c != 43 && c != 45 && c != 102 && c != 110 && c != 116 && !(48 <= c <= 57)
  }

  predicate Fillers(w: Text) {
    forall i :: 0 <= i < |w| ==> Filler(w[i])
  }

  /** Well-formed texts are those of the RFC, and the parser takes more than these: numbers may have a plus
      sign, zeros in front, and a point without a digit behind it; behind a comma, anything but a quote may
      stand before a key, and anything that no value begins with before an element; quotes may stand before
      a colon, and colons behind one. */
  predicate Good(d: Doc)
    decreases d
  {
    match d
    case DString(ps) => GoodPieces(ps)
    case DNumber(sign, whole, fraction) =>
      && (sign == [] || sign == [45] || sign == [43]) && whole != [] && Numerals(whole)
      && (fraction.Some? ==> Numerals(fraction.value))
    case DObject(ms, w) => GoodEntries(ms, true) && Blanks(w)
    case DArray(es, w) => GoodElements(es, true) && Blanks(w)
    case _ => true
  }

  predicate GoodEntries(ms: seq<Entry>, first: bool)
    decreases ms
  {
    ms == [] ||
    (var m := ms[0];
     && (if first then Blanks(m.before) else 34 !in m.before)
     && m.key != [] && GoodPieces(m.key) && QuotesOrBlanks(m.colon) && ColonsOrBlanks(m.gap) && Good(m.val) && Blanks(m.behind)
     && GoodEntries(ms[1..], false))
  }

  predicate GoodElements(es: seq<Element>, first: bool)
    decreases es
  {
    es == [] ||
    ((if first then Blanks(es[0].before) else Fillers(es[0].before))
     && Good(es[0].val) && Blanks(es[0].behind) && GoodElements(es[1..], false))
  }

  // ----- strings, words and numbers -----

  lemma {:induction false} PiecesRead(ps: seq<Piece>, r: Text)
    requires GoodPieces(ps)
    ensures Unquote(Pieces(ps) + ([34] + r)) == Some((Chars(ps), [34] + r))
  {
    var tail := [34] + r;
    if ps == [] {
      assert Pieces(ps) + tail == tail;
    } else {
      var rest := Pieces(ps[1..]) + tail;
      PiecesRead(ps[1..], r);
      assert GoodPieces(ps) ==> match ps[0] case Plain(c) => c != 34 && c != 92
                                case Escaped(l) => l == 34 || l == 92 || l == 110 || l == 116 || l == 114;
      match ps[0]
      case Plain(c) =>
        assert Pieces(ps) + tail == [c] + rest;
        UnquotePlain(c, rest);
      case Escaped(l) =>
        assert Pieces(ps) + tail == [92, l] + rest;
        UnquoteEscape(l, rest);
    }
  }

  lemma {:induction false} CharsEmpty(ps: seq<Piece>)
    ensures Chars(ps) == [] <==> ps == []
  {
  }

  lemma StringRead(ps: seq<Piece>, post: Text)
    requires GoodPieces(ps)
    ensures ParseValue([34] + Pieces(ps) + [34] + post) == Some((if ps == [] then Null else Str(Chars(ps)), post))
  {
    hide Unquote;
    hide ParseJson;
    PiecesRead(ps, post);
    CharsEmpty(ps);
    var t := [34] + post;
    assert [34] + Pieces(ps) + [34] + post == [34] + (Pieces(ps) + t);
    assert ([34] + (Pieces(ps) + t))[1..] == Pieces(ps) + t;
    assert t[1..] == post;
  }

  lemma NumberChars(sign: Text, whole: Text, fraction: Option<Text>)
    requires Good(DNumber(sign, whole, fraction))
    ensures var t := Write(DNumber(sign, whole, fraction));
            && t != [] && (t[0] == MINUS || t[0] == PLUS || IsDigit(t[0]))
            && (forall i :: 0 <= i < |t| ==> IsNumberChar(t[i]))
            && (DOT in t <==> fraction.Some?)
  {
    var t := Write(DNumber(sign, whole, fraction));
    if fraction.Some? {
      assert t[|sign + whole|] == 46;
    }
  }

  lemma DigitsRead(whole: Text)
    requires whole != [] && Numerals(whole)
    ensures ScanDigits(whole) == Some(DigitsValue(whole)) && IsDigit(whole[0])
  {
    RunEnds(whole, [], IsDigit);
    assert whole + [] == whole;
    hide TakeWhile;
    hide DigitsValue;
  }

  lemma WholeRead(sign: Text, whole: Text)
    requires Good(DNumber(sign, whole, None))
    ensures ScanInt(sign + whole) == Some(IntOf(sign == [45], DigitsValue(whole)))
  {
    DigitsRead(whole);
    hide ScanDigits;
    hide DigitsValue;
    if sign == [] {
      assert sign + whole == whole;
    } else {
      assert (sign + whole)[1..] == whole && (sign + whole)[0] == sign[0];
    }
  }

  /** A number goes on up to the first byte that is no digit, sign or point. */
  lemma NumberRead(sign: Text, whole: Text, fraction: Option<Text>, post: Text)
    requires Good(DNumber(sign, whole, fraction))
    requires post == [] || (post[0] != 43 && post[0] != 45 && post[0] != 46 && !(48 <= post[0] <= 57))
    ensures var d := DNumber(sign, whole, fraction);
            ParseValue(Write(d) + post) == Some((Denotes(d), post))
  {
    var d := DNumber(sign, whole, fraction);
    var t := Write(d);
    NumberChars(sign, whole, fraction);
    NumberIs(sign, whole, fraction);
    RunEnds(t, post, IsNumberChar);
    SkipTail(t + post, IsNumberChar);
    assert (t + post)[0] == t[0];
    hide NumberValue;
    hide TakeWhile;
    hide SkipWhile;
    hide Write;
    hide Denotes;
    hide ParseJson;
    hide Unquote;
  }

  lemma NumberIs(sign: Text, whole: Text, fraction: Option<Text>)
    requires Good(DNumber(sign, whole, fraction))
    ensures var d := DNumber(sign, whole, fraction); NumberValue(Write(d)) == Some(Denotes(d))
  {
    var d := DNumber(sign, whole, fraction);
    var t := Write(d);
    NumberChars(sign, whole, fraction);
    if fraction.None? {
      WholeRead(sign, whole);
      assert t == sign + whole;
    } else {
      assert t == sign + whole + [46] + fraction.value;
      assert t[|sign|] == whole[0];
    }
    hide ScanInt;
    hide DigitsValue;
  }

  // ----- the entries of an object -----

  lemma BlanksAreSpace(w: Text)
    requires Blanks(w)
    ensures forall i :: 0 <= i < |w| ==> IsSpace(w[i])
  {
  }

  /** What follows a value: white space, then a comma or a closing bracket. */
  lemma BehindEnds(w: Text, t: Text)
    requires Blanks(w) && t != [] && (t[0] == 44 || t[0] == 125 || t[0] == 93)
    ensures Ends(w + t)
  {
    assert (w + t)[0] == if w == [] then t[0] else w[0];
  }

  lemma ColonRead(key: Text, colon: Text, gap: Text, body: Text)
    requires QuotesOrBlanks(colon) && ColonsOrBlanks(gap)
    requires body != [] && body[0] != 58 && !White(body[0])
    ensures AfterKey(key, [34] + (colon + ([58] + (gap + body)))) == Some((key, body))
  {
    var t := [58] + (gap + body);
    SkipFirst(34, colon + t, QuoteOrSpace);
    SkipOver(colon, t, QuoteOrSpace);
    SkipFirst(58, gap + body, ColonOrSpace);
    SkipOver(gap, body, ColonOrSpace);
  }

  /** A key up to where its value begins. */
  lemma KeyRead(before: Text, ps: seq<Piece>, colon: Text, gap: Text, body: Text, first: bool)
    requires (if first then Blanks(before) else 34 !in before)
    requires ps != [] && GoodPieces(ps) && QuotesOrBlanks(colon) && ColonsOrBlanks(gap)
    requires body != [] && body[0] != 58 && !White(body[0])
    ensures var q := [34] + (Pieces(ps) + ([34] + (colon + ([58] + (gap + body)))));
            && MemberKey([44] + (before + q), first) == Some((Chars(ps), body))
            && (first ==> MemberKey(q, first) == Some((Chars(ps), body)))
  {
    hide Unquote;
    hide AfterKey;
    var r := colon + ([58] + (gap + body));
    var q := [34] + (Pieces(ps) + ([34] + r));
    PiecesRead(ps, r);
    CharsEmpty(ps);
    ColonRead(Chars(ps), colon, gap, body);
    SkipOver(before, q, NotQuote);
    assert q[1..] == Pieces(ps) + ([34] + r);
    assert ([44] + (before + q))[1..] == before + q;
  }

  /** The text of an entry, from its first token to what follows its value. */
  lemma EntryText(ms: seq<Entry>, first: bool, tail: Text)
    requires ms != []
    ensures var m := ms[0];
            var body := Write(m.val) + (m.behind + (Entries(ms[1..], false) + tail));
            var q := [34] + (Pieces(m.key) + ([34] + (m.colon + ([58] + (m.gap + body)))));
            Entries(ms, first) + tail == (if first then [] else [44]) + (m.before + q)
  {
    hide Write;
    hide Pieces;
    var m, rest := ms[0], Entries(ms[1..], false);
    Nest(if first then [] else [44], m.before, Pieces(m.key), m.colon, m.gap, Write(m.val), m.behind, rest, tail);
  }

  lemma Nest(c: Text, b: Text, p: Text, k: Text, g: Text, v: Text, w: Text, rest: Text, tail: Text)
    ensures c + b + [34] + p + [34] + k + [58] + g + v + w + rest + tail ==
            c + (b + ([34] + (p + ([34] + (k + ([58] + (g + (v + (w + (rest + tail))))))))))
  {
    var t8 := w + (rest + tail);
    Assoc(c + b + [34] + p + [34] + k + [58] + g + v + w, rest, tail);
    Assoc(c + b + [34] + p + [34] + k + [58] + g + v, w, rest + tail);
    Assoc(c + b + [34] + p + [34] + k + [58] + g, v, t8);
    Assoc(c + b + [34] + p + [34] + k + [58], g, v + t8);
    Assoc(c + b + [34] + p + [34] + k, [58], g + (v + t8));
    var t5 := [58] + (g + (v + t8));
    Assoc(c + b + [34] + p + [34], k, t5);
    Assoc(c + b + [34] + p, [34], k + t5);
    Assoc(c + b + [34], p, [34] + (k + t5));
    Assoc(c + b, [34], p + ([34] + (k + t5)));
    Assoc(c, b, [34] + (p + ([34] + (k + t5))));
  }

  lemma ElementText(es: seq<Element>, first: bool, tail: Text)
    requires es != []
    ensures var e := es[0];
            var body := Write(e.val) + (e.behind + (Elements(es[1..], false) + tail));
            Elements(es, first) + tail == (if first then [] else [44]) + (e.before + body)
  {
    hide Write;
    var e, rest, c := es[0], Elements(es[1..], false), if first then [] else [44];
    Assoc(c + e.before + Write(e.val) + e.behind, rest, tail);
    Assoc(c + e.before + Write(e.val), e.behind, rest + tail);
    Assoc(c + e.before, Write(e.val), e.behind + (rest + tail));
    Assoc(c, e.before, Write(e.val) + (e.behind + (rest + tail)));
  }

  /** What stands behind an entry: it goes on with white space, a comma or the bracket. */
  lemma EntriesEnd(ms: seq<Entry>, u: Text, w: Text, post: Text)
    requires Blanks(u) && Blanks(w)
    ensures Ends(u + (Entries(ms, false) + (w + [125] + post)))
  {
    hide Write;
    var t := [125] + post;
    assert w + [125] + post == w + t;
    if ms == [] {
      assert u + (Entries(ms, false) + (w + t)) == (u + w) + t;
      BehindEnds(u + w, t);
    } else {
      EntryText(ms, false, w + t);
      BehindEnds(u, Entries(ms, false) + (w + t));
    }
  }

  lemma ElementsEnd(es: seq<Element>, u: Text, w: Text, post: Text)
    requires Blanks(u) && Blanks(w)
    ensures Ends(u + (Elements(es, false) + (w + [93] + post)))
  {
    hide Write;
    var t := [93] + post;
    assert w + [93] + post == w + t;
    if es == [] {
      assert u + (Elements(es, false) + (w + t)) == (u + w) + t;
      BehindEnds(u + w, t);
    } else {
      ElementText(es, false, w + t);
      BehindEnds(u, Elements(es, false) + (w + t));
    }
  }

  // ----- the parser reads them -----

  lemma WriteStarts(d: Doc)
    requires Good(d)
    ensures Write(d) != [] && ValueStart(Write(d)[0])
    ensures var c := Write(d)[0]; c != 58 && !White(c)
    ensures d.DObject? ==> Write(d)[0] == LBRACE
    ensures d.DArray? ==> Write(d)[0] == LBRACKET
  {
    if d.DNumber? {
      NumberChars(d.sign, d.whole, d.fraction);
    }
  }

  /** Every well-formed text is read as what it means, whatever follows it. */
  lemma {:induction false} ValueRead(d: Doc, post: Text)
    requires Good(d) && Ends(post)
    ensures ParseValue(Write(d) + post) == Some((Denotes(d), post))
    decreases d, 1
  {
    match d
    case DNull => WordRoundTrip([110, 117, 108, 108], Null, post);
    case DTrue => WordRoundTrip([116, 114, 117, 101], Bool(true), post);
    case DFalse => WordRoundTrip([102, 97, 108, 115, 101], Bool(false), post);
    case DString(ps) => StringRead(ps, post);
    case DNumber(sign, whole, fraction) => NumberRead(sign, whole, fraction, post);
    case DObject(ms, w) =>
      EntriesRead(ms, [], [], true, w, post);
      ObjectRead(d, post);
    case DArray(es, w) =>
      ElementsRead(es, [], [], true, w, post);
      assert [] + ValuesOf(es) == ValuesOf(es);
      ArrayRead(d, post);
  }

  lemma ObjectRead(d: Doc, post: Text)
    requires Good(d) && d.DObject?
    requires ParseMembers([] + (Entries(d.ms, true) + (d.w + [125] + post)), []) == Some((ItemOf(MembersOf(d.ms, [])), post))
    ensures ParseValue(Write(d) + post) == Some((Denotes(d), post))
  {
    hide ParseMembers;
    hide Entries;
    hide MembersOf;
    var t := Entries(d.ms, true) + (d.w + [125] + post);
    assert [] + t == t;
    assert Write(d) + post == [123] + t;
    assert ([123] + t)[1..] == t;
  }

  lemma ArrayRead(d: Doc, post: Text)
    requires Good(d) && d.DArray?
    requires ParseElements([] + (Elements(d.es, true) + (d.w + [93] + post)), []) == Some((ArrayOf(ValuesOf(d.es)), post))
    ensures ParseValue(Write(d) + post) == Some((Denotes(d), post))
  {
    hide ParseElements;
    hide Elements;
    hide ValuesOf;
    var t := Elements(d.es, true) + (d.w + [93] + post);
    assert [] + t == t;
    assert Write(d) + post == [91] + t;
    assert ([91] + t)[1..] == t;
  }

  lemma {:induction false} EntriesRead(ms: seq<Entry>, done: seq<Member>, u: Text, first: bool, w: Text, post: Text)
    requires GoodEntries(ms, first) && Blanks(u) && Blanks(w) && (first <==> done == [])
    ensures ParseMembers(u + (Entries(ms, first) + (w + [125] + post)), done) == Some((ItemOf(MembersOf(ms, done)), post))
    decreases ms, 0
  {
    hide ParseMembers;
    hide ParseValue;
    hide SkipWhile;
    hide MemberKey;
    hide Put;
    hide Write;
    var tail := w + [125] + post;
    var text := u + (Entries(ms, first) + tail);
    if ms == [] {
      assert text == (u + w) + ([125] + post);
      BracketRead(u + w, post, done);
    } else {
      var m := ms[0];
      var rest := m.behind + (Entries(ms[1..], false) + tail);
      var body := Write(m.val) + rest;
      EntriesEnd(ms[1..], m.behind, w, post);
      ValueRead(m.val, rest);
      WriteStarts(m.val);
      EntryText(ms, first, tail);
      KeyRead(m.before, m.key, m.colon, m.gap, body, first);
      var q := [34] + (Pieces(m.key) + ([34] + (m.colon + ([58] + (m.gap + body)))));
      LeadSkipped(u, m.before, q, first);
      MemberStep(text, done, Chars(m.key), Denotes(m.val), body, rest);
      PutSome(done, Chars(m.key), Denotes(m.val));
      EntriesRead(ms[1..], Put(done, Chars(m.key), Denotes(m.val)), m.behind, false, w, post);
    }
  }

  lemma PutSome(ms: seq<Member>, k: Text, v: Value)
    ensures Put(ms, k, v) != []
  {
  }

  lemma BracketRead(w: Text, post: Text, done: seq<Member>)
    requires Blanks(w)
    ensures ParseMembers(w + ([125] + post), done) == Some((ItemOf(done), post))
  {
    BlanksAreSpace(w);
    SkipOver(w, [125] + post, IsSpace);
    assert ([125] + post)[1..] == post;
    hide SkipWhile;
    hide ParseValue;
  }

  lemma ArrayBracketRead(w: Text, post: Text, done: seq<Value>)
    requires Blanks(w)
    ensures ParseElements(w + ([93] + post), done) == Some((ArrayOf(done), post))
  {
    BlanksAreSpace(w);
    SkipOver(w, [93] + post, IsSpace);
    assert ([93] + post)[1..] == post;
    hide SkipWhile;
    hide ParseValue;
  }

  /** The white space before the next token. */
  lemma LeadSkipped(u: Text, before: Text, q: Text, first: bool)
    requires Blanks(u) && (first ==> Blanks(before)) && q != [] && !IsSpace(q[0])
    ensures var t := u + ((if first then [] else [44]) + (before + q));
            t != [] && SkipWhile(t, IsSpace) == if first then q else [44] + (before + q)
  {
    BlanksAreSpace(u);
    if first {
      assert u + ([] + (before + q)) == (u + before) + q;
      SkipOver(u + before, q, IsSpace);
    } else {
      SkipOver(u, [44] + (before + q), IsSpace);
    }
  }

  /** One element: the parser goes on behind its value. */
  lemma ElementIsRead(es: seq<Element>, done: seq<Value>, u: Text, first: bool, tail: Text)
    requires es != [] && GoodElements(es, first) && Blanks(u) && (first ==> done == []) && (first || done != [])
    requires var rest := es[0].behind + (Elements(es[1..], false) + tail);
             Write(es[0].val) != [] && ParseValue(Write(es[0].val) + rest) == Some((Denotes(es[0].val), rest))
    ensures ParseElements(u + (Elements(es, first) + tail), done) ==
            ParseElements(es[0].behind + (Elements(es[1..], false) + tail), done + [Denotes(es[0].val)])
  {
    hide ParseElements;
    hide ParseValue;
    hide SkipWhile;
    hide ElementStart;
    hide Write;
    hide Elements;
    var e := es[0];
    var rest := e.behind + (Elements(es[1..], false) + tail);
    var body := Write(e.val) + rest;
    WriteStarts(e.val);
    assert body[0] == Write(e.val)[0];
    ElementText(es, first, tail);
    LeadSkipped(u, e.before, body, first);
    ValueFound(e.before, body, first);
    ElementStep(u + (Elements(es, first) + tail), done, Denotes(e.val), body, rest);
  }

  lemma {:induction false} ElementsRead(es: seq<Element>, done: seq<Value>, u: Text, first: bool, w: Text, post: Text)
    requires GoodElements(es, first) && Blanks(u) && Blanks(w) && (first <==> done == [])
    ensures ParseElements(u + (Elements(es, first) + (w + [93] + post)), done) == Some((ArrayOf(done + ValuesOf(es)), post))
    decreases es, 0
  {
    hide ParseElements;
    hide ParseValue;
    hide Write;
    hide Denotes;
    hide Fillers;
    var tail := w + [93] + post;
    if es == [] {
      assert u + (Elements(es, first) + tail) == (u + w) + ([93] + post);
      ArrayBracketRead(u + w, post, done);
      assert done + [] == done;
    } else {
      var e := es[0];
      var rest := e.behind + (Elements(es[1..], false) + tail);
      ElementsEnd(es[1..], e.behind, w, post);
      WriteStarts(e.val);
      ValueRead(e.val, rest);
      ElementIsRead(es, done, u, first, tail);
      hide Blanks;
      hide Elements;
      var next := done + [Denotes(e.val)];
      ElementsRead(es[1..], next, e.behind, false, w, post);
      assert next + ValuesOf(es[1..]) == done + ValuesOf(es);
    }
  }

  lemma ValueFound(before: Text, body: Text, first: bool)
    requires (if first then Blanks(before) else Fillers(before)) && body != [] && ValueStart(body[0])
    ensures ElementStart([44] + (before + body), first) == Some(body)
    ensures first ==> ElementStart(body, first) == Some(body)
  {
    SkipOver(before, body, NotValueStart);
    assert ([44] + (before + body))[1..] == before + body;
  }

  /** `pgvictoria_json_parse_string` accepts every well-formed object or array, and gives what it means. */
  lemma TextRead(d: Doc, post: Text)
    requires Good(d) && (d.DObject? || d.DArray?) && Ends(post)
    ensures |Write(d) + post| >= 2 && ParseJson(Write(d) + post) == Some((Denotes(d).j, post))
  {
    ValueRead(d, post);
    WriteStarts(d);
    assert (Write(d) + post)[0] == Write(d)[0];
    hide ParseJson;
    hide Entries;
    hide Elements;
  }

  // ----- what is refused -----

  /** A run of lower-case letters is one of the three words or an error. */
  lemma WordsOnly(word: Text, post: Text)
    requires word != [] && (word[0] == 110 || word[0] == 116 || word[0] == 102)
    requires (forall i :: 0 <= i < |word| ==> 97 <= word[i] <= 122) && (post == [] || !(97 <= post[0] <= 122))
    ensures ParseValue(word + post) ==
            if word == [110, 117, 108, 108] then Some((Null, post))
            else if word == [116, 114, 117, 101] then Some((Bool(true), post))
            else if word == [102, 97, 108, 115, 101] then Some((Bool(false), post))
            else None
  {
    RunEnds(word, post, IsLower);
    SkipTail(word + post, IsLower);
    assert (word + post)[0] == word[0];
    hide TakeWhile;
    hide SkipWhile;
    hide ParseJson;
    hide Unquote;
    hide NumberValue;
  }

  /** A value begins with one of a few bytes; anything else is an error. */
  lemma ValuesOnly(r: Text)
    requires r != [] && Filler(r[0])
    ensures ParseValue(r) == None
  {
  }

  /** Between a key and its value there is a colon, and nothing in front of it but quotes and white space. */
  lemma ColonsOnly(key: Text, w: Text, r: Text)
    requires QuotesOrBlanks(w) && (r == [] || (r[0] != 34 && r[0] != 58 && !White(r[0])))
    ensures AfterKey(key, w + r) == None
  {
    SkipOver(w, r, QuoteOrSpace);
  }

  /** An entry after the first one follows a comma; the first one, without a comma, begins with its
      quote, and the first element with its value. */
  lemma CommasOnly(a: Text, first: bool)
    requires a != [] && a[0] != 44
    ensures a[0] != 34 || !first ==> MemberKey(a, first) == None
    ensures Filler(a[0]) || !first ==> ElementStart(a, first) == None
  {
    hide Unquote;
    hide AfterKey;
  }

  /** After a backslash only five letters are allowed. */
  lemma EscapesOnly(l: Byte, r: Text)
    requires l != 34 && l != 92 && l != 110 && l != 116 && l != 114
    ensures Unquote([92, l] + r) == None && Unquote([92]) == None
  {
  }

  // ----- the last of equal keys -----

  /** The value of the last entry with a key, or of the members before. */
  function LastOf(ms: seq<Entry>, k: Text, before: Option<Value>): Option<Value>
    requires GoodEntries(ms, true) || GoodEntries(ms, false)
    decreases ms
  {
    if ms == [] then before else LastOf(ms[1..], k, if Chars(ms[0].key) == k then Some(Denotes(ms[0].val)) else before)
  }

  /** Of several entries with one key the last one counts. */
  lemma {:induction false} LastWins(ms: seq<Entry>, done: seq<Member>, k: Text)
    requires GoodEntries(ms, true) || GoodEntries(ms, false)
    ensures Get(MembersOf(ms, done), k) == LastOf(ms, k, Get(done, k))
    decreases ms
  {
    if ms != [] {
      hide Get;
      hide Put;
      hide Denotes;
      PutGet(done, Chars(ms[0].key), Denotes(ms[0].val), k);
      LastWins(ms[1..], Put(done, Chars(ms[0].key), Denotes(ms[0].val)), k);
    }
  }
}
