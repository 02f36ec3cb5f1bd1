// What the printed text of an object looks like, byte by byte: the compact text, and the lines of the
// pretty one.

module JsonLayout {
  import opened Bytes
  import opened Json
  import JsonText
  import JsonRoundTrip

  type Text = seq<Byte>

  /** Texts one behind the other, with another text between them. */
  function Joined(ts: seq<Text>, between: Text): Text {
    if ts == [] then [] else if |ts| == 1 then ts[0] else ts[0] + between + Joined(ts[1..], between)
  }

  lemma {:induction false} JoinedConcat(a: seq<Text>, b: seq<Text>, x: Text)
    requires a != [] && b != []
    ensures Joined(a + b, x) == Joined(a, x) + x + Joined(b, x)
    decreases |a|
  {
    assert (a + b)[1..] == a[1..] + b;
    if |a| == 1 {
      assert a[1..] + b == b;
    } else {
      JoinedConcat(a[1..], b, x);
      Assoc(a[0] + x, Joined(a[1..], x), x + Joined(b, x));
      Assoc(Joined(a[1..], x), x, Joined(b, x));
      Assoc(a[0] + x + Joined(a[1..], x), x, Joined(b, x));
    }
  }

  /** The text of a value that is no container. */
  function Scalar(v: Value, f: Format): Text {
    match v
    case Null => [110, 117, 108, 108]
    case Str(s) => [34] + JsonText.Escape(s) + [34]
    case Int(n) => JsonText.Decimal(n)
    case Bool(b) => if b then [116, 114, 117, 101] else [102, 97, 108, 115, 101]
    case Double(l) => f.fixed(l)
    case Nested(_) => []
  }

  // ----- the compact text -----

  /** `{"key":value,...}` and `[value,...]`, without any white space between them. */
  function CompactText(v: Value, f: Format): Text
    decreases v, 0
  {
    if v.Nested? then CompactJson(v.j, f) else Scalar(v, f)
  }

  function CompactJson(j: Json, f: Format): Text
    decreases j
  {
    match j
    case Unknown => [123, 125]
    case Item(ms) => [123] + Joined(MemberTexts(ms, f), [44]) + [125]
    case Array(es) => [91] + Joined(ElementTexts(es, f), [44]) + [93]
  }

  function MemberTexts(ms: seq<Member>, f: Format): (ts: seq<Text>)
    ensures |ts| == |ms|
    decreases ms
  {
    if ms == [] then []
    else [[34] + JsonText.Escape(ms[0].key) + [34, 58] + CompactText(ms[0].val, f)] + MemberTexts(ms[1..], f)
  }

  function ElementTexts(es: seq<Value>, f: Format): (ts: seq<Text>)
    ensures |ts| == |es|
    decreases es
  {
    if es == [] then [] else [CompactText(es[0], f)] + ElementTexts(es[1..], f)
  }

  lemma Empties(f: Format)
    ensures Spaces(0) == [] && NewLine(f) == (if f.Compact? then [] else [10])
    ensures f.Compact? ==> Separator(f, true) == [44] && Separator(f, false) == [] && Closing(f, 0) == [] && Inside(f, 0) == 0
  {
  }

  lemma {:induction false} CompactValue(v: Value, f: Format, tag: Text)
    requires f.Compact?
    ensures Body(v, f, 0) == CompactText(v, f) && PrintValue(v, f, tag, 0) == tag + CompactText(v, f)
    decreases v, 1
  {
    Empties(f);
    assert [] + tag == tag;
    if v.Nested? {
      CompactIs(v.j, f);
    }
  }

  /** The compact text of an object, byte for byte. */
  lemma {:induction false} CompactIs(j: Json, f: Format)
    requires f.Compact?
    ensures JsonBody(j, f, 0) == CompactJson(j, f)
    decreases j, 0
  {
    Empties(f);
    match j
    case Unknown =>
    case Item(ms) =>
      CompactMembers(ms, f);
      hide PrintMembers;
      hide MemberTexts;
      Closely(123, Joined(MemberTexts(ms, f), [44]), 125);
    case Array(es) =>
      CompactElements(es, f);
      hide PrintElements;
      hide ElementTexts;
      Closely(91, Joined(ElementTexts(es, f), [44]), 93);
  }

  lemma Closely(o: Byte, t: Text, c: Byte)
    ensures [o] + [] + t + [] + [c] == [o] + t + [c]
  {
    assert t + [] == t;
  }

  lemma {:induction false} CompactMembers(ms: seq<Member>, f: Format)
    requires f.Compact?
    ensures PrintMembers(ms, f, 0) == Joined(MemberTexts(ms, f), [44])
    decreases ms, 0
  {
    if ms != [] {
      var tag, t, rest := KeyTag(ms[0].key, f), CompactText(ms[0].val, f), MemberTexts(ms[1..], f);
      Empties(f);
      CompactValue(ms[0].val, f, tag);
      CompactMembers(ms[1..], f);
      CompactTag(ms[0].key, f);
      hide KeyTag;
      hide PrintValue;
      hide CompactText;
      hide Separator;
      assert MemberTexts(ms, f)[1..] == rest;
      if |ms| == 1 {
        assert tag + t + [] + [] == tag + t;
      }
    }
  }

  lemma CompactTag(key: Text, f: Format)
    requires f.Compact?
    ensures KeyTag(key, f) == [34] + JsonText.Escape(key) + [34, 58]
  {
    hide JsonText.Escape;
    assert [34] + JsonText.Escape(key) + [34, 58] == [34] + JsonText.Escape(key) + [34] + [58];
  }

  lemma {:induction false} CompactElements(es: seq<Value>, f: Format)
    requires f.Compact?
    ensures PrintElements(es, f, 0) == Joined(ElementTexts(es, f), [44])
    decreases es, 0
  {
    if es != [] {
      var t, rest := CompactText(es[0], f), ElementTexts(es[1..], f);
      Empties(f);
      CompactValue(es[0], f, []);
      CompactElements(es[1..], f);
      hide PrintValue;
      hide CompactText;
      hide Separator;
      assert [] + t == t;
      assert ElementTexts(es, f)[1..] == rest;
      if |es| == 1 {
        assert t + [] + [] == t;
      }
    }
  }

  /** What the printers' result looks like: behind a tag and without indentation the compact text, and
      at a level of indentation the lines of the pretty text. */
  ghost predicate LaidOut(ret: Text, j: Json, f: Format, tag: Text, n: nat) {
    && (f.Compact? && n == 0 ==> ret == tag + CompactJson(j, f))
    && (f.Pretty? && n % 2 == 0 ==> ret == Joined(JsonLines(j, f, n / 2, tag), [10]))
  }

  lemma PrintedIsLaidOut(j: Json, f: Format, tag: Text, n: nat)
    ensures LaidOut(Indent(tag, n) + JsonBody(j, f, n), j, f, tag, n)
  {
    hide JsonBody;
    hide CompactJson;
    hide JsonLines;
    if f.Compact? && n == 0 {
      Empties(f);
      CompactIs(j, f);
      assert [] + tag == tag;
    } else if f.Pretty? && n % 2 == 0 {
      PrettyIs(j, f, n / 2, tag);
    }
  }

  // ----- no white space between the tokens -----

  /** A text without white space outside of quotes, from inside a quoted string or from outside of one;
      it ends outside. A backslash in a string takes the next byte with it. */
  predicate Tight(s: Text, quoted: bool)
    decreases |s|
  {
    if s == [] then !quoted
    else if quoted && s[0] == 92 then |s| >= 2 && Tight(s[2..], true)
    else if quoted then Tight(s[1..], s[0] != 34)
    else !White(s[0]) && Tight(s[1..], s[0] == 34)
  }

  lemma {:induction false} TightConcat(a: Text, b: Text, quoted: bool)
    requires Tight(a, quoted) && Tight(b, false)
    ensures Tight(a + b, quoted)
    decreases |a|
  {
    if a == [] {
      assert a + b == b;
    } else if quoted && a[0] == 92 {
      assert (a + b)[2..] == a[2..] + b;
      TightConcat(a[2..], b, true);
    } else {
      assert (a + b)[1..] == a[1..] + b;
      TightConcat(a[1..], b, if quoted then a[0] != 34 else a[0] == 34);
    }
  }

  lemma {:induction false} TightPlain(s: Text)
    requires forall i :: 0 <= i < |s| ==> s[i] != 34 && !White(s[i])
    ensures Tight(s, false)
  {
    if s != [] {
      TightPlain(s[1..]);
    }
  }

  lemma {:induction false} TightEscaped(s: Text)
    ensures Tight(JsonText.Escape(s) + [34], true)
  {
    if s == [] {
      assert JsonText.Escape(s) + [34] == [34] && [34][1..] == [];
    } else {
      var one, rest := JsonText.EscapeOne(s[0]), JsonText.Escape(s[1..]) + [34];
      TightEscaped(s[1..]);
      JsonText.EscapeStep(s, [34]);
      assert JsonText.Escape(s) + [34] == one + rest;
      assert (one + rest)[|one|..] == rest;
    }
  }

  lemma TightQuoted(s: Text)
    ensures Tight([34] + JsonText.Escape(s) + [34], false)
  {
    TightEscaped(s);
    hide JsonText.Escape;
    var t := JsonText.Escape(s) + [34];
    assert [34] + JsonText.Escape(s) + [34] == [34] + t;
    assert ([34] + t)[1..] == t;
  }

  lemma {:induction false} TightJoined(ts: seq<Text>)
    requires forall i :: 0 <= i < |ts| ==> Tight(ts[i], false)
    ensures Tight(Joined(ts, [44]), false)
    decreases |ts|
  {
    if |ts| > 1 {
      TightJoined(ts[1..]);
      TightPlain([44]);
      TightConcat(ts[0], [44], false);
      TightConcat(ts[0] + [44], Joined(ts[1..], [44]), false);
    }
  }

  lemma TightBetween(o: Byte, t: Text, c: Byte)
    requires Tight(t, false) && (o == 123 || o == 91) && (c == 125 || c == 93)
    ensures Tight([o] + t + [c], false)
  {
    TightPlain([o]);
    TightPlain([c]);
    TightConcat([o], t, false);
    TightConcat([o] + t, [c], false);
  }

  lemma TightScalar(v: Value, f: Format)
    requires !v.Nested? && JsonRoundTrip.Doubles(v, f, false)
    ensures Tight(Scalar(v, f), false)
  {
    match v
    case Str(s) => TightQuoted(s);
    case Int(n) =>
      JsonText.DecimalChars(n);
      TightPlain(JsonText.Decimal(n));
    case _ => TightPlain(Scalar(v, f));
  }

  lemma {:induction false} TightValue(v: Value, f: Format)
    requires JsonRoundTrip.Doubles(v, f, false)
    ensures Tight(CompactText(v, f), false)
    decreases v, 1
  {
    hide Tight;
    hide Scalar;
    hide CompactJson;
    if v.Nested? {
      CompactIsTight(v.j, f);
    } else {
      TightScalar(v, f);
    }
  }

  /** The compact text has no white space outside of quoted strings. */
  lemma {:induction false} CompactIsTight(j: Json, f: Format)
    requires JsonRoundTrip.DoublesJson(j, f, false)
    ensures Tight(CompactJson(j, f), false)
    decreases j, 0
  {
    hide Tight;
    match j
    case Unknown =>
      TightPlain([]);
      TightBetween(123, [], 125);
      assert [123] + [] + [125] == [123, 125];
    case Item(ms) =>
      TightMembers(ms, f);
      TightJoined(MemberTexts(ms, f));
      TightBetween(123, Joined(MemberTexts(ms, f), [44]), 125);
    case Array(es) =>
      TightElements(es, f);
      TightJoined(ElementTexts(es, f));
      TightBetween(91, Joined(ElementTexts(es, f), [44]), 93);
  }

  lemma {:induction false} TightMembers(ms: seq<Member>, f: Format)
    requires forall i :: 0 <= i < |ms| ==> JsonRoundTrip.Doubles(ms[i].val, f, false)
    ensures forall i :: 0 <= i < |ms| ==> Tight(MemberTexts(ms, f)[i], false)
    decreases ms, 0
  {
    hide Tight;
    if ms != [] {
      var key, t := [34] + JsonText.Escape(ms[0].key) + [34], CompactText(ms[0].val, f);
      TightValue(ms[0].val, f);
      TightMembers(ms[1..], f);
      TightQuoted(ms[0].key);
      TightPlain([58]);
      TightConcat(key, [58], false);
      TightConcat(key + [58], t, false);
      hide JsonText.Escape;
      hide CompactText;
      assert key + [58] == [34] + JsonText.Escape(ms[0].key) + [34, 58];
      assert MemberTexts(ms, f)[0] == key + [58] + t;
    }
  }

  lemma {:induction false} TightElements(es: seq<Value>, f: Format)
    requires forall i :: 0 <= i < |es| ==> JsonRoundTrip.Doubles(es[i], f, false)
    ensures forall i :: 0 <= i < |es| ==> Tight(ElementTexts(es, f)[i], false)
    decreases es, 0
  {
    hide Tight;
    hide CompactText;
    if es != [] {
      TightValue(es[0], f);
      TightElements(es[1..], f);
    }
  }

  // ----- the lines of the pretty text -----

  /** A line at a level: two spaces for each level, and the text. */
  function Line(level: nat, t: Text): Text {
    seq(2 * level, _ => 32) + t
  }

  /** The lines of a value behind a lead on the first one: a scalar is one line; a container has a line
      with the opening bracket, the lines of its entries one level further, all but the last entry with
      a comma at the end, and a line with the closing bracket at its own level. */
  function Lines(v: Value, f: Format, level: nat, lead: Text): (ls: seq<Text>)
    ensures ls != []
    decreases v, 0
  {
    if v.Nested? then JsonLines(v.j, f, level, lead) else [Line(level, lead + Scalar(v, f))]
  }

  function JsonLines(j: Json, f: Format, level: nat, lead: Text): (ls: seq<Text>)
    ensures ls != []
    decreases j
  {
    match j
    case Unknown => [Line(level, lead + [123, 125])]
    case Item(ms) =>
      if ms == [] then [Line(level, lead + [123, 125])]
      else [Line(level, lead + [123])] + MemberLines(ms, f, level + 1) + [Line(level, [125])]
    case Array(es) =>
      if es == [] then [Line(level, lead + [91, 93])]
      else [Line(level, lead + [91])] + ElementLines(es, f, level + 1) + [Line(level, [93])]
  }

  function WithComma(ls: seq<Text>): (r: seq<Text>)
    requires ls != []
    ensures r != []
  {
    ls[..|ls| - 1] + [ls[|ls| - 1] + [44]]
  }

  /** `"key": ` in front of the value of a member. */
  function MemberLines(ms: seq<Member>, f: Format, level: nat): (ls: seq<Text>)
    ensures ms != [] ==> ls != []
    decreases ms
  {
    if ms == [] then []
    else
      var ls := Lines(ms[0].val, f, level, [34] + JsonText.Escape(ms[0].key) + [34, 58, 32]);
      (if |ms| > 1 then WithComma(ls) else ls) + MemberLines(ms[1..], f, level)
  }

  function ElementLines(es: seq<Value>, f: Format, level: nat): (ls: seq<Text>)
    ensures es != [] ==> ls != []
    decreases es
  {
    if es == [] then []
    else
      var ls := Lines(es[0], f, level, []);
      (if |es| > 1 then WithComma(ls) else ls) + ElementLines(es[1..], f, level)
  }

  lemma JoinedComma(ls: seq<Text>)
    requires ls != []
    ensures Joined(WithComma(ls), [10]) == Joined(ls, [10]) + [44]
  {
    var k := |ls| - 1;
    var last, comma := [ls[k]], [ls[k] + [44]];
    assert ls == ls[..k] + last;
    if k > 0 {
      JoinedConcat(ls[..k], last, [10]);
      JoinedConcat(ls[..k], comma, [10]);
      Assoc(Joined(ls[..k], [10]) + [10], ls[k], [44]);
    } else {
      assert WithComma(ls) == comma;
    }
  }

  lemma LineIs(level: nat, lead: Text, t: Text)
    ensures Line(level, lead + t) == Indent(lead, 2 * level) + t && Line(level, t) == Spaces(2 * level) + t
  {
    assert Spaces(2 * level) == seq(2 * level, _ => 32);
    hide Spaces;
    Assoc(Spaces(2 * level), lead, t);
  }

  lemma Pretties(f: Format, level: nat)
    requires f.Pretty?
    ensures NewLine(f) == [10] && Inside(f, 2 * level) == 2 * (level + 1) && Closing(f, 2 * level) == Spaces(2 * level)
    ensures Separator(f, true) == [44, 10] && Separator(f, false) == [10]
  {
  }

  /** A printed value is its lines, with line breaks between them. */
  lemma {:induction false} PrettyValue(v: Value, f: Format, level: nat, lead: Text)
    requires f.Pretty?
    ensures PrintValue(v, f, lead, 2 * level) == Joined(Lines(v, f, level, lead), [10])
    decreases v, 1
  {
    if v.Nested? {
      PrettyIs(v.j, f, level, lead);
    } else {
      hide Indent;
      LineIs(level, lead, Scalar(v, f));
    }
  }

  /** The pretty text of an object is its lines, with line breaks between them. */
  lemma {:induction false} PrettyIs(j: Json, f: Format, level: nat, lead: Text)
    requires f.Pretty?
    ensures PrintJson(j, f, lead, 2 * level) == Joined(JsonLines(j, f, level, lead), [10])
    decreases j, 0
  {
    Pretties(f, level);
    hide Indent;
    match j
    case Unknown => LineIs(level, lead, [123, 125]);
    case Item(ms) =>
      if ms == [] {
        LineIs(level, lead, [123, 125]);
      } else {
        PrettyMembers(ms, f, level + 1);
        Wrapped(level, lead, 123, MemberLines(ms, f, level + 1), 125);
        Around(Indent(lead, 2 * level), 123, PrintMembers(ms, f, 2 * (level + 1)), Spaces(2 * level), 125);
      }
    case Array(es) =>
      if es == [] {
        LineIs(level, lead, [91, 93]);
      } else {
        PrettyElements(es, f, level + 1);
        Wrapped(level, lead, 91, ElementLines(es, f, level + 1), 93);
        Around(Indent(lead, 2 * level), 91, PrintElements(es, f, 2 * (level + 1)), Spaces(2 * level), 93);
      }
  }

  lemma Around(i: Text, o: Byte, p: Text, s: Text, c: Byte)
    ensures i + ([o] + [10] + p + s + [c]) == i + [o] + [10] + p + (s + [c])
  {
    Assoc([o] + [10] + p, s, [c]);
    Assoc([o] + [10], p, s + [c]);
    Assoc(i, [o] + [10], p + (s + [c]));
    Assoc(i, [o], [10]);
    Assoc(i + [o] + [10], p, s + [c]);
  }

  lemma Wrapped(level: nat, lead: Text, o: Byte, ls: seq<Text>, c: Byte)
    requires ls != []
    ensures Joined([Line(level, lead + [o])] + ls + [Line(level, [c])], [10]) ==
            Indent(lead, 2 * level) + [o] + [10] + (Joined(ls, [10]) + [10]) + (Spaces(2 * level) + [c])
  {
    LineIs(level, lead, [o]);
    LineIs(level, [], [c]);
    hide Line;
    hide Indent;
    hide Spaces;
    var a, b := [Line(level, lead + [o])], [Line(level, [c])];
    JoinedConcat(a + ls, b, [10]);
    JoinedConcat(a, ls, [10]);
    Assoc(Indent(lead, 2 * level) + [o] + [10], Joined(ls, [10]), [10]);
  }

  lemma {:induction false} PrettyMembers(ms: seq<Member>, f: Format, level: nat)
    requires f.Pretty? && ms != []
    ensures PrintMembers(ms, f, 2 * level) == Joined(MemberLines(ms, f, level), [10]) + [10]
    decreases ms, 0
  {
    var lead := [34] + JsonText.Escape(ms[0].key) + [34, 58, 32];
    var ls := Lines(ms[0].val, f, level, lead);
    Pretties(f, level);
    PrettyTag(ms[0].key, f);
    PrettyValue(ms[0].val, f, level, lead);
    if |ms| == 1 {
      NoMore(f, level);
      assert MemberLines(ms, f, level) == ls + [] == ls;
      assert Joined(ls, [10]) + [10] + [] == Joined(ls, [10]) + [10];
    } else {
      PrettyMembers(ms[1..], f, level);
      Next(ls, MemberLines(ms[1..], f, level));
    }
  }

  lemma {:induction false} PrettyElements(es: seq<Value>, f: Format, level: nat)
    requires f.Pretty? && es != []
    ensures PrintElements(es, f, 2 * level) == Joined(ElementLines(es, f, level), [10]) + [10]
    decreases es, 0
  {
    var ls := Lines(es[0], f, level, []);
    Pretties(f, level);
    PrettyValue(es[0], f, level, []);
    if |es| == 1 {
      NoMore(f, level);
      assert ElementLines(es, f, level) == ls + [] == ls;
      assert Joined(ls, [10]) + [10] + [] == Joined(ls, [10]) + [10];
    } else {
      PrettyElements(es[1..], f, level);
      Next(ls, ElementLines(es[1..], f, level));
    }
  }

  lemma NoMore(f: Format, level: nat)
    ensures PrintMembers([], f, 2 * level) == [] && PrintElements([], f, 2 * level) == []
    ensures MemberLines([], f, level) == [] && ElementLines([], f, level) == []
  {
  }

  lemma PrettyTag(key: Text, f: Format)
    requires f.Pretty?
    ensures KeyTag(key, f) == [34] + JsonText.Escape(key) + [34, 58, 32]
  {
    hide JsonText.Escape;
    assert [34] + JsonText.Escape(key) + [34, 58, 32] == [34] + JsonText.Escape(key) + [34] + [58, 32];
  }

  /** One entry with a comma, and the entries after it. */
  lemma Next(ls: seq<Text>, rest: seq<Text>)
    requires ls != [] && rest != []
    ensures Joined(WithComma(ls) + rest, [10]) + [10] == Joined(ls, [10]) + [44, 10] + (Joined(rest, [10]) + [10])
  {
    JoinedComma(ls);
    JoinedConcat(WithComma(ls), rest, [10]);
    hide WithComma;
    hide Joined;
    assert [44] + [10] == [44, 10];
    Assoc(Joined(ls, [10]), [44], [10]);
    Assoc(Joined(ls, [10]) + [44, 10], Joined(rest, [10]), [10]);
  }
}
