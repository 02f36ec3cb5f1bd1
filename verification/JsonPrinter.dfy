// The printers of art.c, deque.c and value.c as they run, appending piece by piece, and the copy of
// an object that json.c makes by printing it and parsing the text.

module JsonPrinter {
  import opened Bytes
  import opened JsonText
  import opened Json
  import opened JsonRoundTrip
  import opened JsonParser
  import opened JsonLayout

  /** `pgvictoria_escape_string` */
  method EscapeString(s: Text) returns (t: Text)
    ensures t == Escape(s)
  {
    t := [];
    for i := 0 to |s|
      invariant t + Escape(s[i..]) == Escape(s)
    {
      hide EscapeLetter;
      EscapeStep(s[i..], []);
      assert s[i..][1..] == s[i + 1..];
      assert Escape(s[i..]) == EscapeOne(s[i]) + Escape(s[i + 1..]);
      Assoc(t, EscapeOne(s[i]), Escape(s[i + 1..]));
      t := t + EscapeOne(s[i]);
    }
    assert t + [] == t;
  }

  /** `pgvictoria_value_to_string` */
  method ValueToString(v: Value, f: Format, tag: Text, n: nat) returns (ret: Text)
    ensures ret == PrintValue(v, f, tag, n)
    decreases v, 1
  {
    hide JsonBody;
    hide Escape;
    hide Decimal;
    hide Indent;
    match v {
      case Null => ret := Indent(tag, n) + [110, 117, 108, 108];
      case Str(s) =>
        var t := EscapeString(s);
        ret := Indent(tag, n) + ([QUOTE] + t + [QUOTE]);
      case Int(i) => ret := Indent(tag, n) + Decimal(i);
      case Bool(b) => ret := Indent(tag, n) + (if b then [116, 114, 117, 101] else [102, 97, 108, 115, 101]);
      case Double(l) => ret := Indent(tag, n) + f.fixed(l);
      case Nested(j) => ret := JsonToString(j, f, tag, n);
    }
  }

  /** `pgvictoria_json_to_string` */
  method JsonToString(j: Json, f: Format, tag: Text, n: nat) returns (ret: Text)
    ensures ret == PrintJson(j, f, tag, n) && LaidOut(ret, j, f, tag, n)
    decreases j, 0
  {
    hide LaidOut;
    PrintedIsLaidOut(j, f, tag, n);
    hide JsonBody;
    hide Indent;
    EmptyBodies(f, n);
    match j {
      case Unknown => ret := Indent(tag, n) + [LBRACE, RBRACE];
      case Item(ms) => ret := ItemToString(j, f, tag, n);
      case Array(es) => ret := ArrayToString(j, f, tag, n);
    }
  }

  lemma Join(a: Text, b: Text, c: Text, d: Text, e: Text, t: Text)
    ensures t + a + b + c + d + e == t + (a + b + c + d + e)
  {
    Assoc(t, a, b);
    Assoc(t, a + b, c);
    Assoc(t, a + b + c, d);
    Assoc(t, a + b + c + d, e);
  }

  /** The printers of a tree: the callback appends one member for every leaf. */
  method ItemToString(j: Json, f: Format, tag: Text, n: nat) returns (ret: Text)
    requires j.Item?
    ensures ret == Indent(tag, n) + JsonBody(j, f, n) && LaidOut(ret, j, f, tag, n)
    decreases j, 0, 0
  {
    hide LaidOut;
    PrintedIsLaidOut(j, f, tag, n);
    hide PrintValue;
    hide Indent;
    hide NewLine;
    hide KeyTag;
    hide Separator;
    hide Closing;
    var ms := j.members;
    ret := Indent(tag, n);
    if ms == [] {
      return ret + [LBRACE, RBRACE];
    }
    ret := ret + [LBRACE] + NewLine(f);
    ghost var start, m := ret, Inside(f, n);
    for i := 0 to |ms|
      invariant ret + PrintMembers(ms[i..], f, Inside(f, n)) == start + PrintMembers(ms, f, Inside(f, n))
    {
      var key := EscapeString(ms[i].key);
      KeyTagIs(ms[i].key, f);
      var str := ValueToString(ms[i].val, f, [QUOTE] + key + [QUOTE] + ColonText(f), Inside(f, n));
      var sep := Separator(f, i + 1 < |ms|);
      assert ms[i..][1..] == ms[i + 1..];
      ghost var more := PrintMembers(ms[i + 1..], f, m);
      Assoc(ret, str + sep, more);
      Assoc(ret, str, sep);
      ret := ret + str + sep;
    }
    assert ret + [] == ret;
    Join([LBRACE], NewLine(f), PrintMembers(ms, f, m), Closing(f, n), [RBRACE], Indent(tag, n));
    ret := ret + Closing(f, n) + [RBRACE];
  }

  lemma KeyTagIs(key: Text, f: Format)
    ensures KeyTag(key, f) == [QUOTE] + Escape(key) + [QUOTE] + ColonText(f)
  {
  }

  /** The printers of a deque. */
  method ArrayToString(j: Json, f: Format, tag: Text, n: nat) returns (ret: Text)
    requires j.Array?
    ensures ret == Indent(tag, n) + JsonBody(j, f, n) && LaidOut(ret, j, f, tag, n)
    decreases j, 0, 0
  {
    hide LaidOut;
    PrintedIsLaidOut(j, f, tag, n);
    hide PrintValue;
    hide Indent;
    hide NewLine;
    hide Separator;
    hide Closing;
    var es := j.elements;
    ret := Indent(tag, n);
    if es == [] {
      return ret + [LBRACKET, RBRACKET];
    }
    ret := ret + [LBRACKET] + NewLine(f);
    ghost var start, m := ret, Inside(f, n);
    for i := 0 to |es|
      invariant ret + PrintElements(es[i..], f, Inside(f, n)) == start + PrintElements(es, f, Inside(f, n))
    {
      var str := ValueToString(es[i], f, [], Inside(f, n));
      var sep := Separator(f, i + 1 < |es|);
      assert es[i..][1..] == es[i + 1..];
      ghost var more := PrintElements(es[i + 1..], f, m);
      Assoc(ret, str + sep, more);
      Assoc(ret, str, sep);
      ret := ret + str + sep;
    }
    assert ret + [] == ret;
    Join([LBRACKET], NewLine(f), PrintElements(es, f, m), Closing(f, n), [RBRACKET], Indent(tag, n));
    ret := ret + Closing(f, n) + [RBRACKET];
  }

  /** `pgvictoria_json_clone`, with what "%f" makes of a double. The copy is the object, except that an
      empty container in it loses its type and a double is the one that its "%f" text is read as; it is
      exact exactly when there is neither an empty container nor a double that such a text changes. */
  method Clone(from: Object, fixed: Text -> Text) returns (ok: bool, to: Object)
    ensures fresh(to) && from.contents == old(from.contents)
    ensures ok <==> ParseJson(PrintJson(from.contents, Pretty(fixed), [], 0)).Some?
    ensures GoodJson(from.contents, Pretty(fixed)) ==> ok && to.contents == CollapseJson(from.contents, Pretty(fixed))
    ensures GoodJson(from.contents, Pretty(fixed)) ==> (to.contents == from.contents <==> ExactJson(from.contents, Pretty(fixed)))
  {
    hide GoodJson;
    hide CollapseJson;
    hide ExactJson;
    hide JsonBody;
    hide ParseJson;
    var f := Pretty(fixed);
    var str := JsonToString(from.contents, f, [], 0);
    BodyLong(from.contents, f);
    if GoodJson(from.contents, f) {
      PrintThenParse(from.contents, f);
      CollapseJsonIsIdentity(from.contents, f);
    }
    ok, to := ParseText(str);
  }
}
