// The parser of json.c as it runs: a cursor moves over the text, objects are filled in place. Every
// method is proved to compute what the functions of Json say about the text from the cursor on, so
// the cursor ends strictly past where it started and no character past the end is looked at.

module JsonParser {
  import opened Bytes
  import opened JsonText
  import opened Json

  /** `struct json`. What is nested in it is held by value. */
  class Object {
    var contents: Json

    /** `pgvictoria_json_create` */
    constructor ()
      ensures contents == Unknown
    {
      contents := Unknown;
    }

    /** `json_add`: an element when there is no key, a member otherwise; the object takes its type
        from the first one. An entry of the other type, or with an empty key, is refused. */
    method Add(key: Option<Text>, v: Value)
      modifies this
      ensures Adds(old(contents), key, v, contents)
    {
      match key
      case None =>
        if contents == Unknown {
          contents := Array([]);
        }
        if contents.Array? {
          contents := Array(contents.elements + [v]);
        }
      case Some(k) =>
        if contents == Unknown {
          contents := Item([]);
        }
        if contents.Item? && k != [] {
          contents := Item(Put(contents.members, k, v));
        }
    }
  }

  /** What adding an entry to an object does: an array gets one more element, a member is put among the
      members, and an object of the other type stays as it is, as do the members when the key is empty;
      an object without a type takes it from the entry even then. */
  ghost predicate Adds(o: Json, key: Option<Text>, v: Value, added: Json) {
    && (key.None? ==> forall es :: o == ArrayOf(es) || o == Array(es) ==> added == Array(es + [v]))
    && (key.Some? && key.value != [] ==>
          forall ms :: o == ItemOf(ms) || o == Item(ms) ==> added == ItemOf(Put(ms, key.value, v)))
    && (o.Item? && (key.None? || key.value == []) ==> added == o)
    && (o.Array? && key.Some? ==> added == o)
    && (o == Unknown && key == Some([]) ==> added == Item([]))
  }

  lemma DropDrop(str: Text, i: nat, j: nat)
    requires i + j <= |str|
    ensures str[i..][j..] == str[i + j..]
  {
  }

  // ----- the loops -----

  lemma RunStep(str: Text, idx: nat, p: Byte -> bool)
    requires idx <= |str|
    ensures idx < |str| && p(str[idx]) ==>
              && TakeWhile(str[idx..], p) == [str[idx]] + TakeWhile(str[idx + 1..], p)
              && SkipWhile(str[idx..], p) == SkipWhile(str[idx + 1..], p)
    ensures idx == |str| || !p(str[idx]) ==> TakeWhile(str[idx..], p) == [] && SkipWhile(str[idx..], p) == str[idx..]
  {
    if idx < |str| {
      DropDrop(str, idx, 1);
    }
  }

  method Skip(str: Text, from: nat, p: Byte -> bool) returns (idx: nat)
    requires from <= |str|
    ensures from <= idx <= |str|
    ensures str[idx..] == SkipWhile(str[from..], p)
    ensures idx < |str| ==> !p(str[idx])
  {
    hide SkipWhile;
    hide TakeWhile;
    idx := from;
    while idx < |str| && p(str[idx])
      invariant from <= idx <= |str|
      invariant SkipWhile(str[idx..], p) == SkipWhile(str[from..], p)
    {
      RunStep(str, idx, p);
      idx := idx + 1;
    }
    RunStep(str, idx, p);
  }

  method Run(str: Text, from: nat, p: Byte -> bool) returns (val: Text, idx: nat)
    requires from <= |str|
    ensures from <= idx <= |str|
    ensures val == TakeWhile(str[from..], p) && str[idx..] == SkipWhile(str[from..], p)
  {
    hide SkipWhile;
    hide TakeWhile;
    idx, val := from, [];
    while idx < |str| && p(str[idx])
      invariant from <= idx <= |str|
      invariant val + TakeWhile(str[idx..], p) == TakeWhile(str[from..], p)
      invariant SkipWhile(str[idx..], p) == SkipWhile(str[from..], p)
    {
      RunStep(str, idx, p);
      Assoc(val, [str[idx]], TakeWhile(str[idx + 1..], p));
      idx, val := idx + 1, val + [str[idx]];
    }
    RunStep(str, idx, p);
    assert val + [] == val;
  }

  /** `handle_escape_char` */
  method HandleEscape(str: Text, index: nat) returns (ch: Option<Byte>, idx: nat)
    requires index < |str| && str[index] == BACKSLASH
    ensures ch.None? ==> idx == index && Unquote(str[index..]).None?
    ensures ch.Some? ==> idx == index + 2 <= |str| && ch == Unescape(str[index + 1])
  {
    idx, ch := index, None;
    if index + 1 == |str| {
      return;
    }
    assert str[index..][1] == str[index + 1];
    var c := str[index + 1];
    match c {
      case 34 => ch := Some(c);
      case 92 => ch := Some(c);
      case 110 => ch := Some(NEWLINE);
      case 116 => ch := Some(TAB);
      case 114 => ch := Some(RETURN);
      case _ => return;
    }
    idx := index + 2;
  }

  function Prepend(a: Text, u: Option<(Text, Text)>): Option<(Text, Text)> {
    if u.None? then None else Some((a + u.value.0, u.value.1))
  }

  lemma PrependOne(a: Text, c: Byte, u: Option<(Text, Text)>)
    ensures Prepend(a + [c], u) == Prepend(a, Prepend([c], u))
  {
    if u.Some? {
      Assoc(a, [c], u.value.0);
    }
  }

  /** What one turn of the loop over a quoted text does. */
  lemma UnquoteStep(str: Text, idx: nat)
    requires idx <= |str|
    ensures idx == |str| ==> Unquote(str[idx..]) == None
    ensures idx < |str| && str[idx] == QUOTE ==> Unquote(str[idx..]) == Some(([], str[idx..]))
    ensures idx < |str| && str[idx] != QUOTE && str[idx] != BACKSLASH ==>
              Unquote(str[idx..]) == Prepend([str[idx]], Unquote(str[idx + 1..]))
    ensures idx + 1 < |str| && str[idx] == BACKSLASH && Unescape(str[idx + 1]).Some? ==>
              Unquote(str[idx..]) == Prepend([Unescape(str[idx + 1]).value], Unquote(str[idx + 2..]))
  {
    if idx < |str| {
      DropDrop(str, idx, 1);
      if idx + 1 < |str| {
        DropDrop(str, idx, 2);
        assert str[idx..][1] == str[idx + 1];
      }
    }
  }

  /** The characters of a key or a string, up to its closing quote. */
  method Quoted(str: Text, from: nat) returns (ok: bool, val: Text, idx: nat)
    requires from <= |str|
    ensures ok <==> Unquote(str[from..]).Some?
    ensures ok ==> from <= idx < |str| && Unquote(str[from..]).value == (val, str[idx..])
  {
    hide Unquote;
    hide Unescape;
    idx, val := from, [];
    ghost var u := Unquote(str[from..]);
    assert u.Some? ==> [] + u.value.0 == u.value.0;
    while idx < |str| && str[idx] != QUOTE
      invariant from <= idx <= |str|
      invariant u == Prepend(val, Unquote(str[idx..]))
    {
      UnquoteStep(str, idx);
      if str[idx] == BACKSLASH {
        var ch, next := HandleEscape(str, idx);
        if ch.None? {
          return false, val, idx;
        }
        PrependOne(val, ch.value, Unquote(str[next..]));
        idx, val := next, val + [ch.value];
        continue;
      }
      PrependOne(val, str[idx], Unquote(str[idx + 1..]));
      idx, val := idx + 1, val + [str[idx]];
    }
    UnquoteStep(str, idx);
    ok := idx < |str|;
    assert ok ==> val + [] == val;
  }

  // ----- the parser -----

  /** What a method that reads a value promises about the text it was given. */
  ghost predicate Reads<T>(res: Parsed<T>, ok: bool, val: T, str: Text, from: nat, idx: nat)
  {
    && (ok <==> res.Some?)
    && (ok ==> from < idx <= |str| && res.value == (val, str[idx..]))
  }

  method ReadNumber(str: Text, index: nat) returns (ok: bool, v: Value, idx: nat)
    requires index < |str| && (str[index] == MINUS || str[index] == PLUS || IsDigit(str[index]))
    ensures Reads(ParseValue(str[index..]), ok, v, str, index, idx)
  {
    hide ScanInt;
    hide ParseJson;
    hide Unquote;
    ghost var r := str[index..];
    var lexeme, last := Run(str, index, IsNumberChar);
    ok, v, idx := true, Null, last;
    assert SkipWhile(r, IsNumberChar) == SkipWhile(r[1..], IsNumberChar);
    if DOT in lexeme {
      if ScansDouble(lexeme) { v := Double(lexeme); } else { ok := false; }
    } else {
      var n := ScanInt(lexeme);
      if n.Some? { v := Int(n.value); } else { ok := false; }
    }
    Shorter(str, index, idx);
  }

  lemma Shorter(str: Text, index: nat, idx: nat)
    requires index < |str| && idx <= |str|
    ensures |str[idx..]| < |str[index..]| <==> index < idx
  {
  }

  method ReadWord(str: Text, index: nat) returns (ok: bool, v: Value, idx: nat)
    requires index < |str| && (str[index] == 110 || str[index] == 116 || str[index] == 102)
    ensures Reads(ParseValue(str[index..]), ok, v, str, index, idx)
  {
    hide ParseJson;
    hide Unquote;
    ghost var r := str[index..];
    var word, last := Run(str, index, IsLower);
    ok, v, idx := true, Null, last;
    assert SkipWhile(r, IsLower) == SkipWhile(r[1..], IsLower);
    if word == [110, 117, 108, 108] {
      v := Null;
    } else if word == [116, 114, 117, 101] {
      v := Bool(true);
    } else if word == [102, 97, 108, 115, 101] {
      v := Bool(false);
    } else {
      ok := false;
    }
    Shorter(str, index, idx);
  }

  method ReadString(str: Text, index: nat) returns (ok: bool, v: Value, idx: nat)
    requires index < |str| && str[index] == QUOTE
    ensures Reads(ParseValue(str[index..]), ok, v, str, index, idx)
  {
    hide ParseJson;
    hide Unquote;
    DropDrop(str, index, 1);
    var okQ, val, close := Quoted(str, index + 1);
    ok, v, idx := okQ, StringValue(val), close + 1;
    if ok {
      DropDrop(str, close, 1);
    }
  }

  /** `fill_value`: reads one value and adds it to an object. */
  method FillValue(str: Text, key: Option<Text>, index: nat, o: Object) returns (ok: bool, idx: nat)
    requires index < |str|
    modifies o
    ensures var res := ParseValue(str[index..]);
            && (ok <==> res.Some?)
            && (ok ==> index < idx <= |str| && str[idx..] == res.value.1)
            && if ok then Adds(old(o.contents), key, res.value.0, o.contents) else o.contents == old(o.contents)
    decreases |str| - index, 1
  {
    hide ParseJson;
    hide Unquote;
    hide Adds;
    var v: Value;
    var c := str[index];
    if c == QUOTE {
      ok, v, idx := ReadString(str, index);
    } else if c == MINUS || c == PLUS || IsDigit(c) {
      ok, v, idx := ReadNumber(str, index);
    } else if c == LBRACE || c == LBRACKET {
      var nested: Object;
      ok, idx, nested := ParseString(str, index);
      v := Nested(nested.contents);
    } else if c == 110 || c == 116 || c == 102 {
      ok, v, idx := ReadWord(str, index);
    } else {
      ok, idx := false, index;
    }
    if ok {
      o.Add(key, v);
    }
  }

  /** The part of `parse_string` from one member to the next one's value. */
  method ReadKey(str: Text, index: nat, first: bool) returns (ok: bool, key: Text, idx: nat)
    requires index < |str|
    ensures ok ==> idx < |str| && key != []
    ensures Reads(MemberKey(str[index..], first), ok, key, str, index, idx)
  {
    hide Unquote;
    hide SkipWhile;
    ok, key, idx := false, [], index;
    if str[idx] == COMMA {
      DropDrop(str, idx, 1);
      idx := idx + 1;
    } else if !(str[idx] == QUOTE && first) {
      return;
    }
    idx := Skip(str, idx, NotQuote);
    if idx == |str| {
      return;
    }
    DropDrop(str, idx, 1);
    ok, key, idx := Quoted(str, idx + 1);
    if !ok || key == [] {
      return false, key, idx;
    }
    ok := false;
    idx := Skip(str, idx, QuoteOrSpace);
    if idx == |str| || str[idx] != COLON {
      return;
    }
    idx := Skip(str, idx, ColonOrSpace);
    if idx == |str| {
      return;
    }
    ok := true;
  }

  /** `parse_string` on an object in braces, from after the brace. */
  method ParseItem(str: Text, index: nat) returns (ok: bool, idx: nat, o: Object)
    requires index <= |str|
    ensures fresh(o)
    ensures var res := ParseMembers(str[index..], []);
            && (ok <==> res.Some?)
            && (ok ==> index <= idx <= |str| && res.value == (o.contents, str[idx..]))
    decreases |str| - index, 2
  {
    hide SkipWhile;
    hide MemberKey;
    hide ParseValue;
    hide Put;
    idx := index;
    o := new Object();
    ghost var ms: seq<Member> := [];
    ghost var res := ParseMembers(str[index..], []);
    while idx < |str|
      invariant index <= idx <= |str|
      invariant fresh(o)
      invariant o.contents == ItemOf(ms)
      invariant res == ParseMembers(str[idx..], ms)
    {
      var start := Skip(str, idx, IsSpace);
      if start == |str| {
        return false, start, o;
      }
      if str[start] == RBRACE {
        DropDrop(str, start, 1);
        return true, start + 1, o;
      }
      var okK, key, val := ReadKey(str, start, o.contents == Unknown);
      if !okK {
        return false, start, o;
      }
      var okV, next := FillValue(str, Some(key), val, o);
      if !okV {
        return false, val, o;
      }
      ghost var v := ParseValue(str[val..]).value.0;
      ms := Put(ms, key, v);
      idx := next;
    }
    ok := true;
  }

  /** `parse_string` on an array in brackets, from after the bracket. */
  method ParseArray(str: Text, index: nat) returns (ok: bool, idx: nat, o: Object)
    requires index <= |str|
    ensures fresh(o)
    ensures var res := ParseElements(str[index..], []);
            && (ok <==> res.Some?)
            && (ok ==> index <= idx <= |str| && res.value == (o.contents, str[idx..]))
    decreases |str| - index, 2
  {
    hide SkipWhile;
    hide ParseValue;
    idx := index;
    o := new Object();
    ghost var es: seq<Value> := [];
    ghost var res := ParseElements(str[index..], []);
    while idx < |str|
      invariant index <= idx <= |str|
      invariant fresh(o)
      invariant o.contents == ArrayOf(es)
      invariant res == ParseElements(str[idx..], es)
    {
      var start := Skip(str, idx, IsSpace);
      if start == |str| {
        return false, start, o;
      }
      if str[start] == RBRACKET {
        DropDrop(str, start, 1);
        return true, start + 1, o;
      }
      var val := start;
      if str[start] == COMMA {
        DropDrop(str, start, 1);
        val := start + 1;
      } else if !(ValueStart(str[start]) && o.contents == Unknown) {
        return false, start, o;
      }
      val := Skip(str, val, NotValueStart);
      if val == |str| {
        return false, val, o;
      }
      var okV, next := FillValue(str, None, val, o);
      if !okV {
        return false, val, o;
      }
      ghost var v := ParseValue(str[val..]).value.0;
      es := es + [v];
      idx := next;
    }
    ok := true;
  }

  /** `parse_string` */
  method ParseString(str: Text, index: nat) returns (ok: bool, idx: nat, o: Object)
    requires index < |str|
    ensures fresh(o)
    ensures Reads(ParseJson(str[index..]), ok, o.contents, str, index, idx)
    decreases |str| - index, 0
  {
    hide ParseMembers;
    hide ParseElements;
    DropDrop(str, index, 1);
    if str[index] == LBRACE {
      ok, idx, o := ParseItem(str, index + 1);
    } else if str[index] == LBRACKET {
      ok, idx, o := ParseArray(str, index + 1);
    } else {
      o := new Object();
      ok, idx := false, index;
    }
  }

  /** `pgvictoria_json_parse_string`: what follows the object is ignored. */
  method ParseText(str: Text) returns (ok: bool, o: Object)
    ensures fresh(o)
    ensures ok <==> |str| >= 2 && ParseJson(str).Some?
    ensures ok ==> o.contents == ParseJson(str).value.0
  {
    hide ParseJson;
    if |str| < 2 {
      o := new Object();
      return false, o;
    }
    assert str[0..] == str;
    var idx;
    ok, idx, o := ParseString(str, 0);
  }
}
