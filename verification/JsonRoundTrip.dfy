// Parsing what was printed gives the value back. pgvictoria_json_clone depends on this: it copies
// an object by printing it and parsing the text.

module JsonRoundTrip {
  import opened Bytes
  import opened JsonText
  import opened Json

  /** A text with a point that is read back as a double: what "%f" prints for every finite double. */
  predicate Fixed(t: Text) {
    && t != [] && (t[0] == MINUS || IsDigit(t[0])) && DOT in t && ScansDouble(t)
    && forall i :: 0 <= i < |t| ==> IsNumberChar(t[i])
  }

  /** The values that printing and parsing are a copy of: everything an object can hold. Strings are
      not empty (an empty one is stored as null), keys are not empty and in order, and doubles print
      as numbers ("inf" and "nan" are none). */
  ghost predicate Good(v: Value, f: Format)
    decreases v
  {
    match v
    case Null => true
    case Str(s) => s != []
    case Int(n) => INT64_MIN <= n <= INT64_MAX
    case Bool(_) => true
    case Double(l) => Fixed(f.fixed(l))
    case Nested(j) => GoodJson(j, f)
  }

  ghost predicate GoodJson(j: Json, f: Format)
    decreases j
  {
    match j
    case Unknown => true
    case Item(ms) => Sorted(ms) && GoodMembers(ms, f)
    case Array(es) => GoodElements(es, f)
  }

  ghost predicate GoodMembers(ms: seq<Member>, f: Format)
    decreases ms
  {
    ms == [] || (ms[0].key != [] && Good(ms[0].val, f) && GoodMembers(ms[1..], f))
  }

  ghost predicate GoodElements(es: seq<Value>, f: Format)
    decreases es
  {
    es == [] || (Good(es[0], f) && GoodElements(es[1..], f))
  }

  /** What a copy loses: the type of an emptied container, and what "%f" does not print of a double. */
  function Collapse(v: Value, f: Format): Value
    decreases v
  {
    match v
    case Nested(j) => Nested(CollapseJson(j, f))
    case Double(l) => Double(f.fixed(l))
    case _ => v
  }

  function CollapseJson(j: Json, f: Format): Json
    decreases j
  {
    match j
    case Unknown => Unknown
    case Item(ms) => ItemOf(CollapseMembers(ms, f))
    case Array(es) => ArrayOf(CollapseElements(es, f))
  }

  function CollapseMembers(ms: seq<Member>, f: Format): (r: seq<Member>)
    ensures |r| == |ms|
    decreases ms
  {
    if ms == [] then [] else [Member(ms[0].key, Collapse(ms[0].val, f))] + CollapseMembers(ms[1..], f)
  }

  function CollapseElements(es: seq<Value>, f: Format): (r: seq<Value>)
    ensures |r| == |es|
    decreases es
  {
    if es == [] then [] else [Collapse(es[0], f)] + CollapseElements(es[1..], f)
  }

  // ----- scalars -----

  /** What may follow a value: nothing that would continue a number or a word. */
  predicate Ends(post: Text) {
    post == [] || (!IsNumberChar(post[0]) && !IsLower(post[0]))
  }

  lemma SkipFirst(c: Byte, r: Text, p: Byte -> bool)
    requires p(c)
    ensures SkipWhile([c] + r, p) == SkipWhile(r, p)
  {
    assert ([c] + r)[1..] == r;
  }

  lemma SkipTail(r: Text, p: Byte -> bool)
    requires r != [] && p(r[0])
    ensures SkipWhile(r[1..], p) == SkipWhile(r, p)
  {
  }

  lemma WordRoundTrip(word: Text, v: Value, post: Text)
    requires WordValue(word) == Some(v) && Ends(post)
    ensures ParseValue(word + post) == Some((v, post))
  {
    RunEnds(word, post, IsLower);
    SkipTail(word + post, IsLower);
  }

  lemma IntRoundTrip(n: int, post: Text)
    requires INT64_MIN <= n <= INT64_MAX && Ends(post)
    ensures ParseValue(Decimal(n) + post) == Some((Int(n), post))
  {
    DecimalChars(n);
    ScanDecimal(n);
    hide Decimal;
    hide ScanInt;
    var d := Decimal(n);
    RunEnds(d, post, IsNumberChar);
    SkipTail(d + post, IsNumberChar);
    assert (d + post)[0] == d[0];
    assert DOT !in d;
  }

  lemma DoubleRoundTrip(t: Text, post: Text)
    requires Fixed(t) && Ends(post)
    ensures ParseValue(t + post) == Some((Double(t), post))
  {
    RunEnds(t, post, IsNumberChar);
    SkipTail(t + post, IsNumberChar);
    assert (t + post)[0] == t[0];
  }

  lemma StrRoundTrip(s: Text, post: Text)
    requires s != []
    ensures ParseValue([QUOTE] + Escape(s) + [QUOTE] + post) == Some((Str(s), post))
  {
    hide Unquote;
    hide Escape;
    hide ParseJson;
    var t := [QUOTE] + post;
    Assoc([QUOTE] + Escape(s), [QUOTE], post);
    Assoc([QUOTE], Escape(s), t);
    var r := [QUOTE] + (Escape(s) + t);
    assert r[1..] == Escape(s) + t;
    UnquoteEscaped(s, post);
    assert t[1..] == post;
  }

  /** A printed value starts like a value, not like white space or a colon. */
  lemma BodyStarts(v: Value, f: Format, n: nat)
    requires Good(v, f)
    ensures Body(v, f, n) != [] && ValueStart(Body(v, f, n)[0]) && !ColonOrSpace(Body(v, f, n)[0])
    ensures v.Nested? ==> Body(v, f, n)[0] == LBRACE || Body(v, f, n)[0] == LBRACKET
  {
    if v.Int? {
      DecimalChars(v.n);
    }
  }

  // ----- members -----

  lemma AfterKeyRead(key: Text, f: Format, body: Text)
    requires body != [] && !ColonOrSpace(body[0])
    ensures AfterKey(key, [QUOTE] + (ColonText(f) + body)) == Some((key, body))
  {
    var t := ColonText(f) + body;
    SkipFirst(QUOTE, t, QuoteOrSpace);
    assert t[0] == COLON;
    SkipOver(ColonText(f), body, ColonOrSpace);
  }

  lemma KeyTagText(key: Text, f: Format, body: Text)
    ensures KeyTag(key, f) + body == [QUOTE] + (Escape(key) + ([QUOTE] + (ColonText(f) + body)))
  {
    hide Escape;
    Assoc([QUOTE] + Escape(key) + [QUOTE], ColonText(f), body);
    Assoc([QUOTE] + Escape(key), [QUOTE], ColonText(f) + body);
    Assoc([QUOTE], Escape(key), [QUOTE] + (ColonText(f) + body));
  }

  /** The text from a member's key on is read as the key, up to where the value starts. */
  lemma KeyRead(key: Text, f: Format, body: Text)
    requires key != [] && body != [] && !ColonOrSpace(body[0])
    ensures KeyTag(key, f) + body != [] && (KeyTag(key, f) + body)[0] == QUOTE
    ensures var u := Unquote((KeyTag(key, f) + body)[1..]);
            u.Some? && u.value.0 == key && AfterKey(key, u.value.1) == Some((key, body))
  {
    hide Unquote;
    hide Escape;
    hide AfterKey;
    hide KeyTag;
    KeyTagText(key, f, body);
    var t := Escape(key) + ([QUOTE] + (ColonText(f) + body));
    assert ([QUOTE] + t)[1..] == t;
    UnquoteEscaped(key, ColonText(f) + body);
    AfterKeyRead(key, f, body);
  }

  lemma MemberKeyRead(lead: Text, key: Text, f: Format, body: Text, first: bool)
    requires key != [] && body != [] && !ColonOrSpace(body[0])
    requires forall i :: 0 <= i < |lead| ==> IsSpace(lead[i])
    ensures var t := lead + (KeyTag(key, f) + body);
            first ==> SkipWhile(t, IsSpace) != [] && SkipWhile(t, IsSpace)[0] == QUOTE &&
                      MemberKey(SkipWhile(t, IsSpace), first) == Some((key, body))
    ensures var t := [COMMA] + (lead + (KeyTag(key, f) + body));
            SkipWhile(t, IsSpace) == t && MemberKey(t, first) == Some((key, body))
  {
    hide Unquote;
    hide KeyTag;
    hide AfterKey;
    KeyRead(key, f, body);
    var r := KeyTag(key, f) + body;
    SkipOver(lead, r, IsSpace);
    SkipOver(lead, r, NotQuote);
    var t := [COMMA] + (lead + r);
    assert t[1..] == lead + r;
  }

  /** The end of a container. */
  lemma EndRead(f: Format, m: nat, close: Byte, post: Text)
    requires close == RBRACE || close == RBRACKET
    ensures var t := NewLine(f) + (Closing(f, m) + [close] + post);
            && SkipWhile(t, IsSpace) == [close] + post && t != [] && Ends(t)
  {
    var ws := NewLine(f) + Closing(f, m);
    var t := NewLine(f) + (Closing(f, m) + [close] + post);
    assert t == ws + ([close] + post);
    SkipOver(ws, [close] + post, IsSpace);
  }

  /** What stands before an entry: for the first one the line break after the opening bracket, for
      the others the separator. */
  function Lead(first: bool, f: Format): Text {
    Separator(f, !first)
  }

  lemma MemberStep(text: Text, done: seq<Member>, key: Text, v: Value, body: Text, rest: Text)
    requires text != [] && SkipWhile(text, IsSpace) != [] && SkipWhile(text, IsSpace)[0] != RBRACE
    requires body != [] && MemberKey(SkipWhile(text, IsSpace), done == []) == Some((key, body))
    requires ParseValue(body) == Some((v, rest))
    ensures ParseMembers(text, done) == ParseMembers(rest, Put(done, key, v))
  {
    hide ParseValue;
    hide SkipWhile;
    hide MemberKey;
  }

  lemma ElementStep(text: Text, done: seq<Value>, v: Value, body: Text, rest: Text)
    requires text != [] && SkipWhile(text, IsSpace) != [] && SkipWhile(text, IsSpace)[0] != RBRACKET
    requires body != [] && ElementStart(SkipWhile(text, IsSpace), done == []) == Some(body)
    requires ParseValue(body) == Some((v, rest))
    ensures ParseElements(text, done) == ParseElements(rest, done + [v])
  {
    hide ParseValue;
    hide SkipWhile;
    hide ElementStart;
  }

  lemma ObjectEnds(f: Format, m: nat, done: seq<Member>, post: Text)
    ensures ParseMembers(NewLine(f) + (Closing(f, m) + [RBRACE] + post), done) == Some((ItemOf(done), post))
  {
    hide SkipWhile;
    hide ParseValue;
    hide NewLine;
    EndRead(f, m, RBRACE, post);
    assert ([RBRACE] + post)[1..] == post;
  }

  lemma ArrayEnds(f: Format, m: nat, done: seq<Value>, post: Text)
    ensures ParseElements(NewLine(f) + (Closing(f, m) + [RBRACKET] + post), done) == Some((ArrayOf(done), post))
  {
    hide SkipWhile;
    hide ParseValue;
    hide NewLine;
    EndRead(f, m, RBRACKET, post);
    assert ([RBRACKET] + post)[1..] == post;
  }

  /** One printed entry: what stands before it, its indentation, its tag, its text, the separator
      after it and what follows. */
  lemma Regroup(c: Text, w: Text, s: Text, k: Text, b: Text, p: Text, q: Text, tail: Text)
    ensures c + w + (s + k + b + p + q + tail) == c + (w + s + (k + (b + (p + (q + tail)))))
  {
    var rest := p + (q + tail);
    Assoc(s + k + b + p, q, tail);
    Assoc(s + k + b, p, q + tail);
    Assoc(s + k, b, rest);
    Assoc(s, k, b + rest);
    Assoc(c, w, s + (k + (b + rest)));
    Assoc(w, s, k + (b + rest));
  }

  /** One printed member, taken apart. */
  lemma MemberText(ms: seq<Member>, first: bool, f: Format, n: nat, tail: Text)
    requires ms != []
    ensures var rest := Separator(f, |ms| > 1) + (PrintMembers(ms[1..], f, n) + tail);
            var body := Body(ms[0].val, f, n) + rest;
            Lead(first, f) + (PrintMembers(ms, f, n) + tail) ==
              (if first then [] else [COMMA]) + (NewLine(f) + Spaces(n) + (KeyTag(ms[0].key, f) + body))
  {
    hide Body;
    hide KeyTag;
    hide NewLine;
    hide Spaces;
    Regroup(if first then [] else [COMMA], NewLine(f), Spaces(n), KeyTag(ms[0].key, f), Body(ms[0].val, f, n),
            Separator(f, |ms| > 1), PrintMembers(ms[1..], f, n), tail);
  }

  lemma ElementText(es: seq<Value>, first: bool, f: Format, n: nat, tail: Text)
    requires es != []
    ensures var rest := Separator(f, |es| > 1) + (PrintElements(es[1..], f, n) + tail);
            Lead(first, f) + (PrintElements(es, f, n) + tail) ==
              (if first then [] else [COMMA]) + (NewLine(f) + Spaces(n) + (Body(es[0], f, n) + rest))
  {
    hide Body;
    hide NewLine;
    hide Spaces;
    var rest := Separator(f, |es| > 1) + (PrintElements(es[1..], f, n) + tail);
    Regroup(if first then [] else [COMMA], NewLine(f), Spaces(n), [], Body(es[0], f, n),
            Separator(f, |es| > 1), PrintElements(es[1..], f, n), tail);
    assert [] + (Body(es[0], f, n) + rest) == Body(es[0], f, n) + rest;
  }

  lemma LeadIsSpace(f: Format, n: nat)
    ensures forall i :: 0 <= i < |NewLine(f) + Spaces(n)| ==> IsSpace((NewLine(f) + Spaces(n))[i])
  {
  }

  lemma RestEnds(f: Format, hasNext: bool, m: nat, close: Byte, post: Text, q: Text)
    requires close == RBRACE || close == RBRACKET
    requires !hasNext ==> q == Closing(f, m) + [close] + post
    ensures Ends(Separator(f, hasNext) + q)
  {
    if !hasNext {
      EndRead(f, m, close, post);
      assert Separator(f, false) == NewLine(f);
    }
  }

  // ----- the round trip -----

  /** A printed value is read back, up to what a copy loses, whatever may follow it. */
  lemma {:induction false} ValueRoundTrip(v: Value, f: Format, n: nat, post: Text)
    requires Good(v, f) && Ends(post)
    ensures Body(v, f, n) != []
    ensures ParseValue(Body(v, f, n) + post) == Some((Collapse(v, f), post))
    decreases v, 1
  {
    hide ParseValue;
    hide JsonBody;
    hide Decimal;
    hide CollapseJson;
    BodyStarts(v, f, n);
    match v
    case Null => WordRoundTrip(Body(v, f, n), v, post);
    case Bool(_) => WordRoundTrip(Body(v, f, n), v, post);
    case Int(i) => IntRoundTrip(i, post);
    case Double(l) => DoubleRoundTrip(f.fixed(l), post);
    case Str(s) => StrRoundTrip(s, post);
    case Nested(j) =>
      JsonRoundTrip(j, f, n, post);
      NestedRead(JsonBody(j, f, n), post, CollapseJson(j, f));
  }

  lemma NestedRead(b: Text, post: Text, j: Json)
    requires b != [] && (b[0] == LBRACE || b[0] == LBRACKET) && ParseJson(b + post) == Some((j, post))
    ensures ParseValue(b + post) == Some((Nested(j), post))
  {
    hide ParseJson;
  }

  lemma {:induction false} JsonRoundTrip(j: Json, f: Format, n: nat, post: Text)
    requires GoodJson(j, f)
    ensures ParseJson(JsonBody(j, f, n) + post) == Some((CollapseJson(j, f), post))
    decreases j, 0
  {
    hide JsonBody;
    hide ParseJson;
    EmptyRead(post);
    match j
    case Unknown => EmptyBodies(f, n);
    case Item(ms) =>
      EmptyBodies(f, n);
      if ms != [] {
        ItemText(ms, f, n, post);
        MembersRoundTrip(ms, [], f, Inside(f, n), n, post);
        assert [] + CollapseMembers(ms, f) == CollapseMembers(ms, f);
      }
    case Array(es) =>
      EmptyBodies(f, n);
      if es != [] {
        ArrayText(es, f, n, post);
        ElementsRoundTrip(es, [], f, Inside(f, n), n, post);
        assert [] + CollapseElements(es, f) == CollapseElements(es, f);
      }
  }

  lemma EmptyBodies(f: Format, n: nat)
    ensures JsonBody(Unknown, f, n) == JsonBody(Item([]), f, n) == [LBRACE, RBRACE]
    ensures JsonBody(Array([]), f, n) == [LBRACKET, RBRACKET]
  {
  }

  lemma Open(o: Byte, w: Text, p: Text, c: Text, e: Text, post: Text)
    ensures ([o] + w + p + c + e + post)[0] == o
    ensures ([o] + w + p + c + e + post)[1..] == w + (p + (c + e + post))
  {
    Assoc([o] + w + p + c, e, post);
    Assoc([o] + w + p, c, e + post);
    Assoc([o] + w, p, c + (e + post));
    Assoc([o], w, p + (c + (e + post)));
    Assoc(c, e, post);
  }

  lemma ItemText(ms: seq<Member>, f: Format, n: nat, post: Text)
    requires ms != []
    ensures ParseJson(JsonBody(Item(ms), f, n) + post) ==
            ParseMembers(Lead(true, f) + (PrintMembers(ms, f, Inside(f, n)) + (Closing(f, n) + [RBRACE] + post)), [])
  {
    hide PrintMembers;
    hide ParseMembers;
    hide NewLine;
    hide Closing;
    LeadFirst(f);
    Open(LBRACE, NewLine(f), PrintMembers(ms, f, Inside(f, n)), Closing(f, n), [RBRACE], post);
  }

  lemma ArrayText(es: seq<Value>, f: Format, n: nat, post: Text)
    requires es != []
    ensures ParseJson(JsonBody(Array(es), f, n) + post) ==
            ParseElements(Lead(true, f) + (PrintElements(es, f, Inside(f, n)) + (Closing(f, n) + [RBRACKET] + post)), [])
  {
    hide PrintElements;
    hide ParseElements;
    hide NewLine;
    hide Closing;
    LeadFirst(f);
    Open(LBRACKET, NewLine(f), PrintElements(es, f, Inside(f, n)), Closing(f, n), [RBRACKET], post);
  }

  lemma LeadFirst(f: Format)
    ensures Lead(true, f) == NewLine(f)
  {
    assert [] + NewLine(f) == NewLine(f);
  }

  lemma EmptyRead(post: Text)
    ensures ParseJson([LBRACE, RBRACE] + post) == Some((Unknown, post))
    ensures ParseJson([LBRACKET, RBRACKET] + post) == Some((Unknown, post))
  {
    assert ([LBRACE, RBRACE] + post)[1..] == [RBRACE] + post;
    assert ([LBRACKET, RBRACKET] + post)[1..] == [RBRACKET] + post;
    assert ([RBRACE] + post)[1..] == post && ([RBRACKET] + post)[1..] == post;
  }

  lemma {:induction false} MembersRoundTrip(ms: seq<Member>, done: seq<Member>, f: Format, n: nat, m: nat, post: Text)
    requires ms != [] && GoodMembers(ms, f) && Sorted(ms)
    requires forall i, j :: 0 <= i < |done| && 0 <= j < |ms| ==> StrLess(done[i].key, ms[j].key)
    ensures ParseMembers(Lead(done == [], f) + (PrintMembers(ms, f, n) + (Closing(f, m) + [RBRACE] + post)), done) ==
            Some((Item(done + CollapseMembers(ms, f)), post))
    decreases ms, 0
  {
    hide PrintMembers;
    hide ParseMembers;
    hide ParseValue;
    hide Body;
    hide KeyTag;
    hide Closing;
    hide SkipWhile;
    hide MemberKey;
    hide Put;
    hide Separator;
    var tail := Closing(f, m) + [RBRACE] + post;
    var q := PrintMembers(ms[1..], f, n) + tail;
    var rest := Separator(f, |ms| > 1) + q;
    var k, v := ms[0].key, ms[0].val;
    var body := Body(v, f, n) + rest;
    var text := Lead(done == [], f) + (PrintMembers(ms, f, n) + tail);
    MemberText(ms, done == [], f, n, tail);
    BodyStarts(v, f, n);
    assert body[0] == Body(v, f, n)[0];
    LeadIsSpace(f, n);
    MemberKeyRead(NewLine(f) + Spaces(n), k, f, body, done == []);
    NoMembers(f, n);
    LastMember(ms, f, n, tail);
    RestEnds(f, |ms| > 1, m, RBRACE, post, q);
    ValueRoundTrip(v, f, n, rest);
    assert [] + (NewLine(f) + Spaces(n) + (KeyTag(k, f) + body)) == NewLine(f) + Spaces(n) + (KeyTag(k, f) + body);
    MemberStep(text, done, k, Collapse(v, f), body, rest);
    PutLast(done, k, Collapse(v, f));
    var next := done + [Member(k, Collapse(v, f))];
    if |ms| > 1 {
      MembersRoundTrip(ms[1..], next, f, n, m, post);
      assert next + CollapseMembers(ms[1..], f) == done + CollapseMembers(ms, f);
    } else {
      SeparatorLast(f);
      ObjectEnds(f, m, next, post);
      assert CollapseMembers(ms, f) == [Member(k, Collapse(v, f))];
    }
  }

  lemma LastMember(ms: seq<Member>, f: Format, n: nat, tail: Text)
    requires ms != []
    ensures |ms| == 1 ==> PrintMembers(ms[1..], f, n) + tail == tail
  {
    NoMembers(f, n);
    assert |ms| == 1 ==> ms[1..] == [] && [] + tail == tail;
  }

  lemma LastElement(es: seq<Value>, f: Format, n: nat, tail: Text)
    requires es != []
    ensures |es| == 1 ==> PrintElements(es[1..], f, n) + tail == tail
  {
    NoMembers(f, n);
    assert |es| == 1 ==> es[1..] == [] && [] + tail == tail;
  }

  lemma NoMembers(f: Format, n: nat)
    ensures PrintMembers([], f, n) == [] && PrintElements([], f, n) == []
  {
  }

  lemma SeparatorLast(f: Format)
    ensures Separator(f, false) == NewLine(f)
  {
  }

  lemma {:induction false} ElementsRoundTrip(es: seq<Value>, done: seq<Value>, f: Format, n: nat, m: nat, post: Text)
    requires es != [] && GoodElements(es, f)
    ensures ParseElements(Lead(done == [], f) + (PrintElements(es, f, n) + (Closing(f, m) + [RBRACKET] + post)), done) ==
            Some((Array(done + CollapseElements(es, f)), post))
    decreases es, 0
  {
    hide PrintElements;
    hide ParseElements;
    hide ParseValue;
    hide Body;
    hide Closing;
    hide SkipWhile;
    hide ElementStart;
    hide Separator;
    var tail := Closing(f, m) + [RBRACKET] + post;
    var q := PrintElements(es[1..], f, n) + tail;
    var rest := Separator(f, |es| > 1) + q;
    var v := es[0];
    var body := Body(v, f, n) + rest;
    var text := Lead(done == [], f) + (PrintElements(es, f, n) + tail);
    ElementText(es, done == [], f, n, tail);
    BodyStarts(v, f, n);
    assert body[0] == Body(v, f, n)[0];
    LeadIsSpace(f, n);
    ElementRead(NewLine(f) + Spaces(n), body, done == []);
    NoMembers(f, n);
    LastElement(es, f, n, tail);
    RestEnds(f, |es| > 1, m, RBRACKET, post, q);
    ValueRoundTrip(v, f, n, rest);
    assert [] + (NewLine(f) + Spaces(n) + body) == NewLine(f) + Spaces(n) + body;
    ElementStep(text, done, Collapse(v, f), body, rest);
    var next := done + [Collapse(v, f)];
    if |es| > 1 {
      ElementsRoundTrip(es[1..], next, f, n, m, post);
      assert next + CollapseElements(es[1..], f) == done + CollapseElements(es, f);
    } else {
      SeparatorLast(f);
      ArrayEnds(f, m, next, post);
      assert CollapseElements(es, f) == [Collapse(v, f)];
    }
  }

  lemma ElementRead(lead: Text, body: Text, first: bool)
    requires body != [] && ValueStart(body[0]) && !ColonOrSpace(body[0])
    requires forall i :: 0 <= i < |lead| ==> IsSpace(lead[i])
    ensures var t := lead + body;
            first ==> SkipWhile(t, IsSpace) != [] && SkipWhile(t, IsSpace)[0] != RBRACKET &&
                      ElementStart(SkipWhile(t, IsSpace), first) == Some(body)
    ensures var t := [COMMA] + (lead + body);
            SkipWhile(t, IsSpace) == t && ElementStart(t, first) == Some(body)
  {
    SkipOver(lead, body, IsSpace);
    SkipOver(lead, body, NotValueStart);
    var t := [COMMA] + (lead + body);
    assert t[1..] == lead + body;
  }

  /** A copy changes the empty containers, and the doubles whose "%f" text is another one. */
  ghost predicate Exact(v: Value, f: Format)
    decreases v
  {
    match v
    case Nested(j) => ExactJson(j, f)
    case Double(l) => f.fixed(l) == l
    case _ => true
  }

  ghost predicate ExactJson(j: Json, f: Format)
    decreases j
  {
    match j
    case Unknown => true
    case Item(ms) => ms != [] && forall i :: 0 <= i < |ms| ==> Exact(ms[i].val, f)
    case Array(es) => es != [] && forall i :: 0 <= i < |es| ==> Exact(es[i], f)
  }

  lemma {:induction false} CollapseIsIdentity(v: Value, f: Format)
    ensures Collapse(v, f) == v <==> Exact(v, f)
    decreases v, 1
  {
    if v.Nested? {
      CollapseJsonIsIdentity(v.j, f);
    }
  }

  lemma {:induction false} CollapseJsonIsIdentity(j: Json, f: Format)
    ensures CollapseJson(j, f) == j <==> ExactJson(j, f)
    decreases j, 0
  {
    match j
    case Unknown =>
    case Item(ms) => CollapseMembersIdentity(ms, f);
    case Array(es) => CollapseElementsIdentity(es, f);
  }

  lemma {:induction false} CollapseMembersIdentity(ms: seq<Member>, f: Format)
    ensures CollapseMembers(ms, f) == ms <==> forall i :: 0 <= i < |ms| ==> Exact(ms[i].val, f)
    decreases ms, 0
  {
    if ms != [] {
      CollapseIsIdentity(ms[0].val, f);
      CollapseMembersIdentity(ms[1..], f);
      assert ms == [ms[0]] + ms[1..];
      assert CollapseMembers(ms, f)[1..] == CollapseMembers(ms[1..], f);
      assert forall i :: 0 < i < |ms| ==> ms[i] == ms[1..][i - 1];
    }
  }

  lemma {:induction false} CollapseElementsIdentity(es: seq<Value>, f: Format)
    ensures CollapseElements(es, f) == es <==> forall i :: 0 <= i < |es| ==> Exact(es[i], f)
    decreases es, 0
  {
    if es != [] {
      CollapseIsIdentity(es[0], f);
      CollapseElementsIdentity(es[1..], f);
      assert es == [es[0]] + es[1..];
      assert CollapseElements(es, f)[1..] == CollapseElements(es[1..], f);
      assert forall i :: 0 < i < |es| ==> es[i] == es[1..][i - 1];
    }
  }

  /** `pgvictoria_json_parse_string` of `pgvictoria_json_to_string`, without a tag, in either format:
      the object itself exactly when no container in it is empty and no double changes its text. */
  lemma PrintThenParse(j: Json, f: Format)
    requires GoodJson(j, f)
    ensures ParseJson(PrintJson(j, f, [], 0)) == Some((CollapseJson(j, f), []))
    ensures ParseJson(PrintJson(j, f, [], 0)) == Some((j, [])) <==> ExactJson(j, f)
    ensures |PrintJson(j, f, [], 0)| >= 2
  {
    JsonRoundTrip(j, f, 0, []);
    CollapseJsonIsIdentity(j, f);
    hide JsonBody;
    hide ParseJson;
    assert Indent([], 0) == [];
    assert PrintJson(j, f, [], 0) == JsonBody(j, f, 0) + [];
    BodyLong(j, f);
  }

  lemma BodyLong(j: Json, f: Format)
    ensures |JsonBody(j, f, 0)| >= 2
  {
  }

  // ----- what the parser makes -----

  /** Every double in a value prints as a number, or even as the text it was read from. */
  ghost predicate Doubles(v: Value, f: Format, kept: bool)
    decreases v
  {
    match v
    case Nested(j) => DoublesJson(j, f, kept)
    case Double(l) => if kept then f.fixed(l) == l else Fixed(f.fixed(l))
    case _ => true
  }

  ghost predicate DoublesJson(j: Json, f: Format, kept: bool)
    decreases j
  {
    match j
    case Unknown => true
    case Item(ms) => forall i :: 0 <= i < |ms| ==> Doubles(ms[i].val, f, kept)
    case Array(es) => forall i :: 0 <= i < |es| ==> Doubles(es[i], f, kept)
  }

  /** A value that can be copied if its doubles can, and exactly if they can exactly. */
  ghost predicate Copies(v: Value, f: Format) {
    (Doubles(v, f, false) ==> Good(v, f)) && (Doubles(v, f, true) <==> Exact(v, f))
  }

  ghost predicate CopiesJson(j: Json, f: Format) {
    (DoublesJson(j, f, false) ==> GoodJson(j, f)) && (DoublesJson(j, f, true) <==> ExactJson(j, f))
  }

  ghost predicate CopiesMembers(ms: seq<Member>, f: Format) {
    Sorted(ms) && forall i :: 0 <= i < |ms| ==> ms[i].key != [] && Copies(ms[i].val, f)
  }

  ghost predicate CopiesElements(es: seq<Value>, f: Format) {
    forall i :: 0 <= i < |es| ==> Copies(es[i], f)
  }

  lemma {:induction false} AllGoodMembers(ms: seq<Member>, f: Format)
    requires forall i :: 0 <= i < |ms| ==> ms[i].key != [] && Good(ms[i].val, f)
    ensures GoodMembers(ms, f)
  {
    if ms != [] {
      AllGoodMembers(ms[1..], f);
    }
  }

  lemma {:induction false} AllGoodElements(es: seq<Value>, f: Format)
    requires forall i :: 0 <= i < |es| ==> Good(es[i], f)
    ensures GoodElements(es, f)
  {
    if es != [] {
      AllGoodElements(es[1..], f);
    }
  }

  lemma ItemCopies(ms: seq<Member>, f: Format)
    requires CopiesMembers(ms, f)
    ensures CopiesJson(ItemOf(ms), f)
  {
    hide Good;
    hide Sorted;
    if ms != [] && DoublesJson(Item(ms), f, false) {
      AllGoodMembers(ms, f);
    }
  }

  lemma ArrayCopies(es: seq<Value>, f: Format)
    requires CopiesElements(es, f)
    ensures CopiesJson(ArrayOf(es), f)
  {
    hide Good;
    if es != [] && DoublesJson(Array(es), f, false) {
      AllGoodElements(es, f);
    }
  }

  lemma {:induction false} PutCopies(ms: seq<Member>, k: Text, v: Value, f: Format)
    requires forall i :: 0 <= i < |ms| ==> ms[i].key != [] && Copies(ms[i].val, f)
    requires k != [] && Copies(v, f)
    ensures forall i :: 0 <= i < |Put(ms, k, v)| ==> Put(ms, k, v)[i].key != [] && Copies(Put(ms, k, v)[i].val, f)
  {
    hide Copies;
    hide StrLess;
    if ms != [] {
      PutCopies(ms[1..], k, v, f);
    }
  }

  lemma NumberCopies(lexeme: Text, f: Format)
    ensures NumberValue(lexeme).Some? ==> Copies(NumberValue(lexeme).value, f)
  {
    hide DigitsValue;
    hide TakeWhile;
  }

  lemma {:induction false} ParsedValueCopies(r: Text, f: Format)
    requires r != []
    ensures ParseValue(r).Some? ==> Copies(ParseValue(r).value.0, f)
    decreases |r|, 1
  {
    hide ParseJson;
    hide Unquote;
    hide NumberValue;
    NumberCopies(TakeWhile(r, IsNumberChar), f);
    if r[0] == LBRACE || r[0] == LBRACKET {
      ParsedCopies(r, f);
    }
  }

  /** Whatever the parser accepts can be copied if its doubles can, and exactly if they can exactly: it
      holds no empty container and no empty string, and its keys are in order and not empty. */
  lemma {:induction false} ParsedCopies(r: Text, f: Format)
    ensures ParseJson(r).Some? ==> CopiesJson(ParseJson(r).value.0, f)
    decreases |r|, 0
  {
    hide CopiesJson;
    hide ParseMembers;
    hide ParseElements;
    if r != [] && r[0] == LBRACE {
      ParsedMembersCopy(r[1..], [], f);
    } else if r != [] && r[0] == LBRACKET {
      ParsedElementsCopy(r[1..], [], f);
    }
  }

  lemma {:induction false} ParsedMembersCopy(r: Text, ms: seq<Member>, f: Format)
    requires CopiesMembers(ms, f)
    ensures ParseMembers(r, ms).Some? ==> CopiesJson(ParseMembers(r, ms).value.0, f)
    decreases |r|, 2
  {
    hide CopiesJson;
    hide Copies;
    hide ParseValue;
    hide SkipWhile;
    ItemCopies(ms, f);
    var a := SkipWhile(r, IsSpace);
    if ParseMembers(r, ms).Some? && r != [] && a[0] != RBRACE {
      var k := MemberKey(a, ms == []).value;
      MemberKeyNotEmpty(a, ms == []);
      ParsedValueCopies(k.1, f);
      var v := ParseValue(k.1).value;
      PutCopies(ms, k.0, v.0, f);
      PutSorted(ms, k.0, v.0);
      ParsedMembersCopy(v.1, Put(ms, k.0, v.0), f);
    }
  }

  lemma MemberKeyNotEmpty(a: Text, first: bool)
    requires a != []
    ensures MemberKey(a, first).Some? ==> MemberKey(a, first).value.0 != []
  {
    hide Unquote;
    hide SkipWhile;
  }

  lemma {:induction false} ParsedElementsCopy(r: Text, es: seq<Value>, f: Format)
    requires CopiesElements(es, f)
    ensures ParseElements(r, es).Some? ==> CopiesJson(ParseElements(r, es).value.0, f)
    decreases |r|, 2
  {
    hide CopiesJson;
    hide Copies;
    hide ParseValue;
    hide SkipWhile;
    hide ElementStart;
    ArrayCopies(es, f);
    var a := SkipWhile(r, IsSpace);
    if ParseElements(r, es).Some? && r != [] && a[0] != RBRACKET {
      var b := ElementStart(a, es == []).value;
      ParsedValueCopies(b, f);
      var v := ParseValue(b).value;
      ParsedElementsCopy(v.1, es + [v.0], f);
    }
  }

  /** Printing what was parsed, in either format, and parsing again changes nothing but doubles, and
      nothing at all exactly if every double prints as the text it was read from. */
  lemma ParseThenPrint(r: Text, f: Format)
    requires ParseJson(r).Some? && DoublesJson(ParseJson(r).value.0, f, false)
    ensures var j := ParseJson(r).value.0;
            && ParseJson(PrintJson(j, f, [], 0)) == Some((CollapseJson(j, f), []))
            && (ParseJson(PrintJson(j, f, [], 0)) == Some((j, [])) <==> DoublesJson(j, f, true))
  {
    ParsedCopies(r, f);
    hide ParseJson;
    hide PrintJson;
    PrintThenParse(ParseJson(r).value.0, f);
  }
}
