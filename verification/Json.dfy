// JSON values (json.c), how they are printed (art.c, deque.c and value.c) and what the parser
// computes. Texts are byte strings; the parser's functions work on the text that is left.

module Json {
  import opened Bytes
  import opened JsonText

  /** A stored value. `ValueString` holds a copy made by appending to nothing, so an empty string is
      stored as the null pointer; a double is given by the text it was read from. */
  datatype Value =
    | Null
    | Str(s: Text)
    | Int(n: int)
    | Bool(b: bool)
    | Double(lexeme: Text)
    | Nested(j: Json)

  /** The members of an item are in the order in which its radix tree is traversed. */
  datatype Json =
    | Unknown
    | Item(members: seq<Member>)
    | Array(elements: seq<Value>)

  datatype Member = Member(key: Text, val: Value)

  /** What `pgvictoria_value_create` stores for a string. */
  function StringValue(s: Text): Value {
    if s == [] then Null else Str(s)
  }

  // ----- the order of members -----

  ghost predicate Sorted(ms: seq<Member>) {
    forall i, j :: 0 <= i < j < |ms| ==> StrLess(ms[i].key, ms[j].key)
  }

  /** `pgvictoria_json_put` on an item: the member with this key is replaced or added in order. */
  function Put(ms: seq<Member>, k: Text, v: Value): seq<Member> {
    if ms == [] then [Member(k, v)]
    else if k == ms[0].key then [Member(k, v)] + ms[1..]
    else if StrLess(k, ms[0].key) then [Member(k, v)] + ms
    else [ms[0]] + Put(ms[1..], k, v)
  }

  function Get(ms: seq<Member>, k: Text): Option<Value> {
    if ms == [] then None
    else if ms[0].key == k then Some(ms[0].val)
    else Get(ms[1..], k)
  }

  /** Putting sets one key and leaves every other lookup alone. */
  lemma {:induction false} PutGet(ms: seq<Member>, k: Text, v: Value, q: Text)
    ensures Get(Put(ms, k, v), q) == if q == k then Some(v) else Get(ms, q)
  {
    if ms != [] && k != ms[0].key && !StrLess(k, ms[0].key) {
      PutGet(ms[1..], k, v, q);
    }
  }

  lemma {:induction false} PutLast(ms: seq<Member>, k: Text, v: Value)
    requires forall i :: 0 <= i < |ms| ==> StrLess(ms[i].key, k)
    ensures Put(ms, k, v) == ms + [Member(k, v)]
  {
    if ms != [] {
      StrLessIsLexLess(ms[0].key, k);
      StrLessIsLexLess(k, ms[0].key);
      LexLessAsymmetric(ms[0].key, k);
      PutLast(ms[1..], k, v);
    }
  }

  lemma {:induction false} PutAbove(ms: seq<Member>, k: Text, v: Value, low: Text)
    requires StrLess(low, k) && forall i :: 0 <= i < |ms| ==> StrLess(low, ms[i].key)
    ensures forall i :: 0 <= i < |Put(ms, k, v)| ==> StrLess(low, Put(ms, k, v)[i].key)
  {
    if ms != [] && k != ms[0].key && !StrLess(k, ms[0].key) {
      PutAbove(ms[1..], k, v, low);
    }
  }

  lemma SortedFirst(m: Member, ms: seq<Member>)
    requires Sorted(ms) && forall i :: 0 <= i < |ms| ==> StrLess(m.key, ms[i].key)
    ensures Sorted([m] + ms)
  {
    hide StrLess;
  }

  /** Putting keeps the members in the order in which the tree is traversed. */
  lemma {:induction false} PutSorted(ms: seq<Member>, k: Text, v: Value)
    requires Sorted(ms)
    ensures Sorted(Put(ms, k, v))
  {
    if ms != [] {
      hide StrLess;
      StrLessTotal(k, ms[0].key);
      if k == ms[0].key {
        SortedFirst(Member(k, v), ms[1..]);
      } else if StrLess(k, ms[0].key) {
        forall i | 0 <= i < |ms|
          ensures StrLess(k, ms[i].key)
        {
          if i > 0 { StrLessTransitive(k, ms[0].key, ms[i].key); }
        }
        SortedFirst(Member(k, v), ms);
      } else {
        PutSorted(ms[1..], k, v);
        PutAbove(ms[1..], k, v, ms[0].key);
        SortedFirst(ms[0], Put(ms[1..], k, v));
      }
    }
  }

  // ----- printing -----

  /** `FORMAT_JSON` and `FORMAT_JSON_COMPACT`. With either goes what the C library makes of a double:
      the text that "%f" prints for the double that was read from a text. It may be any function. */
  datatype Format = Pretty(fixed: Text -> Text) | Compact(fixed: Text -> Text)

  const INDENT_PER_LEVEL: nat := 2

  function Spaces(n: nat): Text {
    seq(n, _ => SPACE)
  }

  /** `pgvictoria_indent`. */
  function Indent(tag: Text, n: nat): Text {
    Spaces(n) + tag
  }

  function NewLine(f: Format): Text {
    if f.Pretty? then [NEWLINE] else []
  }

  /** What goes between two entries, and after the last one. */
  function Separator(f: Format, hasNext: bool): Text {
    (if hasNext then [COMMA] else []) + NewLine(f)
  }

  /** The indentation of the entries inside a container at indentation `n`. */
  function Inside(f: Format, n: nat): nat {
    if f.Pretty? then n + INDENT_PER_LEVEL else n
  }

  /** The colon after a key. */
  function ColonText(f: Format): Text {
    if f.Pretty? then [COLON, SPACE] else [COLON]
  }

  /** The quoted key in front of a member's value. */
  function KeyTag(key: Text, f: Format): Text {
    [QUOTE] + Escape(key) + [QUOTE] + ColonText(f)
  }

  /** `pgvictoria_value_to_string`. */
  function PrintValue(v: Value, f: Format, tag: Text, n: nat): Text
    decreases v, 1
  {
    Indent(tag, n) + Body(v, f, n)
  }

  /** The text of a value after its indentation and tag. */
  function Body(v: Value, f: Format, n: nat): Text
    decreases v, 0
  {
    match v
    case Null => [110, 117, 108, 108]
    case Str(s) => [QUOTE] + Escape(s) + [QUOTE]
    case Int(i) => Decimal(i)
    case Bool(b) => if b then [116, 114, 117, 101] else [102, 97, 108, 115, 101]
    case Double(l) => f.fixed(l)
    case Nested(j) => JsonBody(j, f, n)
  }

  function JsonBody(j: Json, f: Format, n: nat): Text
    decreases j
  {
    match j
    case Unknown => [LBRACE, RBRACE]
    case Item(ms) =>
      if ms == [] then [LBRACE, RBRACE]
      else [LBRACE] + NewLine(f) + PrintMembers(ms, f, Inside(f, n)) + Closing(f, n) + [RBRACE]
    case Array(es) =>
      if es == [] then [LBRACKET, RBRACKET]
      else [LBRACKET] + NewLine(f) + PrintElements(es, f, Inside(f, n)) + Closing(f, n) + [RBRACKET]
  }

  function Closing(f: Format, n: nat): Text {
    if f.Pretty? then Spaces(n) else []
  }

  function PrintMembers(ms: seq<Member>, f: Format, n: nat): Text
    decreases ms
  {
    if ms == [] then []
    else PrintValue(ms[0].val, f, KeyTag(ms[0].key, f), n) + Separator(f, |ms| > 1) + PrintMembers(ms[1..], f, n)
  }

  function PrintElements(es: seq<Value>, f: Format, n: nat): Text
    decreases es
  {
    if es == [] then []
    else PrintValue(es[0], f, [], n) + Separator(f, |es| > 1) + PrintElements(es[1..], f, n)
  }

  /** `pgvictoria_json_to_string`. */
  function PrintJson(j: Json, f: Format, tag: Text, n: nat): Text {
    Indent(tag, n) + JsonBody(j, f, n)
  }

  // ----- parsing -----

  predicate NotQuote(c: Byte) { c != QUOTE }

  predicate QuoteOrSpace(c: Byte) { c == QUOTE || IsSpace(c) }

  predicate ColonOrSpace(c: Byte) { c == COLON || IsSpace(c) }

  /** `value_start`. */
  predicate ValueStart(c: Byte) {
    IsDigit(c) || c == MINUS || c == PLUS || c == LBRACKET || c == LBRACE || c == QUOTE || c == 110 || c == 116 || c == 102
  }

  predicate NotValueStart(c: Byte) { !ValueStart(c) }

  /** `sscanf` with `"%lf"` finds a number: after an optional sign a digit, or a point and a digit. */
  predicate ScansDouble(s: Text) {
    var body := if s != [] && (s[0] == MINUS || s[0] == PLUS) then s[1..] else s;
    body != [] && (IsDigit(body[0]) || (|body| > 1 && body[0] == DOT && IsDigit(body[1])))
  }

  /** A number: with a point it is a double, otherwise a 64-bit integer. */
  function NumberValue(lexeme: Text): Option<Value> {
    if DOT in lexeme then (if ScansDouble(lexeme) then Some(Double(lexeme)) else None)
    else
      var n := ScanInt(lexeme);
      if n.None? then None else Some(Int(n.value))
  }

  function WordValue(word: Text): Option<Value> {
    if word == [110, 117, 108, 108] then Some(Null)
    else if word == [116, 114, 117, 101] then Some(Bool(true))
    else if word == [102, 97, 108, 115, 101] then Some(Bool(false))
    else None
  }

  /** An object that has been given no member or element keeps its unknown type. */
  function ItemOf(ms: seq<Member>): Json {
    if ms == [] then Unknown else Item(ms)
  }

  function ArrayOf(es: seq<Value>): Json {
    if es == [] then Unknown else Array(es)
  }

  type Parsed<T> = Option<(T, Text)>

  /** `fill_value`: the value a text starts with, and what is left. */
  function ParseValue(r: Text): (res: Parsed<Value>)
    requires r != []
    ensures res.Some? ==> |res.value.1| < |r|
    decreases |r|, 1
  {
    if r[0] == QUOTE then
      var u := Unquote(r[1..]);
      if u.None? then None else Some((StringValue(u.value.0), u.value.1[1..]))
    else if r[0] == MINUS || r[0] == PLUS || IsDigit(r[0]) then
      var v := NumberValue(TakeWhile(r, IsNumberChar));
      if v.None? then None else Some((v.value, SkipWhile(r[1..], IsNumberChar)))
    else if r[0] == LBRACE || r[0] == LBRACKET then
      var o := ParseJson(r);
      if o.None? then None else Some((Nested(o.value.0), o.value.1))
    else if r[0] == 110 || r[0] == 116 || r[0] == 102 then
      var v := WordValue(TakeWhile(r, IsLower));
      if v.None? then None else Some((v.value, SkipWhile(r[1..], IsLower)))
    else None
  }

  /** `parse_string`: an object in braces or an array in brackets, and what is left. */
  function ParseJson(r: Text): (res: Parsed<Json>)
    ensures res.Some? ==> |res.value.1| < |r|
    decreases |r|, 0
  {
    if r == [] then None
    else if r[0] == LBRACE then ParseMembers(r[1..], [])
    else if r[0] == LBRACKET then ParseElements(r[1..], [])
    else None
  }

  /** From where the next member may start: its key, and the text from its value on. All but the
      first member follow a comma; whatever stands before the opening quote is skipped. */
  function MemberKey(a: Text, first: bool): (res: Parsed<Text>)
    requires a != []
    ensures res.Some? ==> 0 < |res.value.1| < |a|
  {
    if a[0] != COMMA && !(a[0] == QUOTE && first) then None
    else
      var b := SkipWhile(if a[0] == COMMA then a[1..] else a, NotQuote);
      if b == [] then None
      else
        var u := Unquote(b[1..]);
        if u.None? || u.value.0 == [] then None else AfterKey(u.value.0, u.value.1)
  }

  /** The closing quote, the colon and the white space between a key and its value. */
  function AfterKey(key: Text, r: Text): (res: Parsed<Text>)
    ensures res.Some? ==> 0 < |res.value.1| <= |r|
  {
    var c := SkipWhile(r, QuoteOrSpace);
    if c == [] || c[0] != COLON then None
    else
      var d := SkipWhile(c, ColonOrSpace);
      if d == [] then None else Some((key, d))
  }

  /** The loop over the members. A text that ends after a value ends the object as well. */
  function ParseMembers(r: Text, ms: seq<Member>): (res: Parsed<Json>)
    ensures res.Some? ==> |res.value.1| <= |r|
    decreases |r|, 2
  {
    if r == [] then Some((ItemOf(ms), []))
    else
      var a := SkipWhile(r, IsSpace);
      if a == [] then None
      else if a[0] == RBRACE then Some((ItemOf(ms), a[1..]))
      else
        var k := MemberKey(a, ms == []);
        if k.None? then None
        else
          var v := ParseValue(k.value.1);
          if v.None? then None else ParseMembers(v.value.1, Put(ms, k.value.0, v.value.0))
  }

  /** From where the next element may start: the text from its value on. */
  function ElementStart(a: Text, first: bool): (res: Option<Text>)
    requires a != []
    ensures res.Some? ==> 0 < |res.value| <= |a|
  {
    if a[0] != COMMA && !(ValueStart(a[0]) && first) then None
    else
      var b := SkipWhile(if a[0] == COMMA then a[1..] else a, NotValueStart);
      if b == [] then None else Some(b)
  }

  /** The loop over the elements. */
  function ParseElements(r: Text, es: seq<Value>): (res: Parsed<Json>)
    ensures res.Some? ==> |res.value.1| <= |r|
    decreases |r|, 2
  {
    if r == [] then Some((ArrayOf(es), []))
    else
      var a := SkipWhile(r, IsSpace);
      if a == [] then None
      else if a[0] == RBRACKET then Some((ArrayOf(es), a[1..]))
      else
        var b := ElementStart(a, es == []);
        if b.None? then None
        else
          var v := ParseValue(b.value);
          if v.None? then None else ParseElements(v.value.1, es + [v.value.0])
  }
}
