// config_get, config_set and config_del of src/config.c as they run: a file is read line by line, the
// lines are scanned, shifted and overwritten in an array, and written back.

module IniFile {
  import opened Bytes
  import opened IniLine
  import opened IniEdit

  // ----- files and lines -----

  predicate NotNewline(c: Byte) { c != NEWLINE }

  /** What one call of `fgets` reads: up to and with the next newline. */
  function FirstLine(t: Text): (r: Text)
    ensures |r| <= |t| && (t != [] ==> r != [])
    ensures t[..|r|] == r
  {
    var s := TakeWhile(t, NotNewline);
    assert t == s + SkipWhile(t, NotNewline);
    if |s| < |t| then t[..|s| + 1] else t
  }

  /** The lines of a file. */
  function Split(t: Text): Lines
    decreases |t|
  {
    if t == [] then [] else [FirstLine(t)] + Split(t[|FirstLine(t)|..])
  }

  function Concat(ls: Lines): Text {
    if ls == [] then [] else ls[0] + Concat(ls[1..])
  }

  /** A line with a newline at its end and nowhere else. */
  predicate Complete(line: Text) {
    line != [] && line[|line| - 1] == NEWLINE && NEWLINE !in line[..|line| - 1]
  }

  lemma {:induction false} ConcatAppend(a: Lines, b: Lines)
    ensures Concat(a + b) == Concat(a) + Concat(b)
    decreases |a|
  {
    if a == [] {
      assert a + b == b;
    } else {
      assert (a + b)[1..] == a[1..] + b;
      ConcatAppend(a[1..], b);
    }
  }

  lemma FirstOfComplete(line: Text, rest: Text)
    requires Complete(line)
    ensures FirstLine(line + rest) == line
  {
    var n := |line| - 1;
    var tail := [NEWLINE] + rest;
    assert line + rest == line[..n] + tail;
    RunEnds(line[..n], tail, NotNewline);
    assert (line + rest)[..n + 1] == line;
  }

  predicate NoNewline(s: Text) { NEWLINE !in s }

  /** The lines that a file can have: the last one may lack its newline. */
  ghost predicate FileLines(ls: Lines) {
    && (forall i :: 0 <= i < |ls| - 1 ==> Complete(ls[i]))
    && (ls != [] ==> ls[|ls| - 1] != [] && (Complete(ls[|ls| - 1]) || NoNewline(ls[|ls| - 1])))
  }

  lemma FirstOfOne(line: Text)
    requires line != [] && NoNewline(line)
    ensures FirstLine(line) == line
  {
    RunEnds(line, [], NotNewline);
    assert line + [] == line;
  }

  /** Lines that are written are the lines that are read, if each but the last is complete. */
  lemma {:induction false} SplitConcat(ls: Lines)
    requires FileLines(ls)
    ensures Split(Concat(ls)) == ls
    decreases |ls|
  {
    hide FirstLine;
    hide Complete;
    hide NoNewline;
    if |ls| == 1 && !Complete(ls[0]) {
      FirstOfOne(ls[0]);
      assert Concat(ls) == ls[0] + [] == ls[0];
      assert ls[0][|ls[0]|..] == [];
    } else if ls != [] {
      FirstOfComplete(ls[0], Concat(ls[1..]));
      CompleteNotEmpty(ls[0]);
      assert forall i :: 0 <= i < |ls| - 2 ==> ls[1..][i] == ls[i + 1];
      SplitConcat(ls[1..]);
      assert Concat(ls)[|ls[0]|..] == Concat(ls[1..]);
    }
  }

  lemma FirstLineIs(t: Text)
    requires t != []
    ensures var r := FirstLine(t); if |r| < |t| then Complete(r) else r != [] && (Complete(r) || NoNewline(r))
  {
    var s, q := TakeWhile(t, NotNewline), SkipWhile(t, NotNewline);
    assert t == s + q;
    TakeWhileAll(t, NotNewline);
    assert NoNewline(s);
    if |s| < |t| {
      assert q[0] == NEWLINE;
      assert FirstLine(t) == s + [NEWLINE];
      assert (s + [NEWLINE])[..|s|] == s;
    } else {
      assert t == s;
    }
  }

  /** Whatever is in a file, its lines are such lines. */
  lemma {:induction false} SplitIsLines(t: Text)
    ensures FileLines(Split(t))
    decreases |t|
  {
    hide FirstLine;
    hide Complete;
    hide NoNewline;
    if t != [] {
      var r := FirstLine(t);
      FirstLineIs(t);
      var ls, rest := Split(t), Split(t[|r|..]);
      SplitIsLines(t[|r|..]);
      assert ls == [r] + rest;
    }
  }

  lemma CompleteNotEmpty(line: Text)
    requires Complete(line)
    ensures line != []
  {
  }

  // ----- parsing a line -----

  method Find(s: Text, c: Byte) returns (i: nat)
    ensures i <= |s| && (i == |s| <==> c !in s)
    ensures s[..i] == UpTo(s, c) && (i < |s| ==> s[i] == c && s[i + 1..] == Behind(s, c))
  {
    i := 0;
    while i < |s| && s[i] != c
      invariant i <= |s| && c !in s[..i]
      invariant UpTo(s, c) == s[..i] + UpTo(s[i..], c) && Behind(s, c) == Behind(s[i..], c)
    {
      assert s[i..][1..] == s[i + 1..] && s[..i + 1] == s[..i] + [s[i]];
      i := i + 1;
    }
    if i == |s| {
      assert s[..i] == s;
    } else {
      assert s[i..][1..] == s[i + 1..];
    }
  }

  method FindEither(s: Text) returns (i: nat)
    ensures i <= |s| && (i == |s| <==> HASH !in s && SEMICOLON !in s) && s[..i] == UpToEither(s)
  {
    i := 0;
    while i < |s| && s[i] != HASH && s[i] != SEMICOLON
      invariant i <= |s| && HASH !in s[..i] && SEMICOLON !in s[..i]
      invariant UpToEither(s) == s[..i] + UpToEither(s[i..])
    {
      assert s[i..][1..] == s[i + 1..] && s[..i + 1] == s[..i] + [s[i]];
      i := i + 1;
    }
    if i == |s| {
      assert s[..i] == s;
    }
  }

  /** What every scan does with a line. */
  method Parse(line: Text) returns (m: Line)
    ensures m == Meaning(line)
  {
    hide Trim;
    hide UpTo;
    hide Behind;
    hide UpToEither;
    var trimmed := TrimText(line);
    if trimmed == [] || trimmed[0] == HASH || trimmed[0] == SEMICOLON {
      return Other;
    }
    if trimmed[0] == OPEN {
      var bracketEnd := Find(trimmed, CLOSE);
      return Header(if bracketEnd < |trimmed| then trimmed[..bracketEnd] + [CLOSE] else trimmed);
    }
    var eq := Find(trimmed, EQUALS);
    if eq == |trimmed| {
      return Other;
    }
    var foundKey := TrimText(trimmed[..eq]);
    var foundValue := TrimText(trimmed[eq + 1..]);
    var comment := FindEither(foundValue);
    if comment < |foundValue| {
      foundValue := TrimText(foundValue[..comment]);
    }
    return Entry(foundKey, foundValue);
  }

  // ----- get -----

  /** `config_get`: what it prints, or nothing. */
  method ConfigGet(file: Option<Text>, section: Text, key: Text) returns (r: Option<Text>)
    ensures r == if file.None? then None else Get(Split(file.value), HeaderText(section), key, Before)
  {
    hide Meaning;
    hide FirstLine;
    if file.None? {
      return None;
    }
    var rest, inSection := file.value, false;
    var header := HeaderText(section);
    while rest != []
      invariant Get(Split(rest), header, key, if inSection then Inside else Before) == Get(Split(file.value), header, key, Before)
      decreases |rest|
    {
      var line := FirstLine(rest);
      ghost var more := Split(rest[|line|..]);
      assert Split(rest)[1..] == more;
      rest := rest[|line|..];
      var m := Parse(line);
      if m.Header? {
        if m.name == header {
          inSection := true;
        } else if inSection {
          PastFindsNothing(more, header, key);
          return None;
        }
      } else if inSection && m.Entry? && m.key == key {
        return Some(m.value);
      }
    }
    return None;
  }

  // ----- set -----

  /** Reads the lines into an array with room for three more. */
  method ReadLines(file: Text) returns (lines: array<Text>, lineCount: nat)
    ensures fresh(lines) && lineCount + 3 <= lines.Length && lines[..lineCount] == Split(file)
  {
    hide FirstLine;
    var all: Lines, rest := [], file;
    while rest != []
      invariant all + Split(rest) == Split(file)
      decreases |rest|
    {
      var line := FirstLine(rest);
      Push(all, line, Split(rest[|line|..]));
      all, rest := all + [line], rest[|line|..];
    }
    assert all + [] == all;
    lineCount := |all|;
    lines := new Text[lineCount + 3](i => if 0 <= i < |all| then all[i] else []);
    assert lines[..lineCount] == all;
  }

  lemma Push(a: Lines, x: Text, b: Lines)
    ensures a + ([x] + b) == a + [x] + b
  {
  }

  /** The scanning loop of `config_set` and `config_del`. */
  method ScanSection(lines: array<Text>, lineCount: nat, header: Text, key: Option<Text>)
      returns (sectionStart: int, sectionEnd: int, keyLine: int)
    requires lineCount <= lines.Length
    ensures Scan(sectionStart, sectionEnd, keyLine) == ScanLines(lines[..lineCount], header, key, lineCount)
  {
    hide Meaning;
    sectionStart, sectionEnd, keyLine := -1, -1, -1;
    var sectionFound, keyFound := false, false;
    ghost var ls := lines[..lineCount];
    for i := 0 to lineCount
      invariant Scan(sectionStart, sectionEnd, keyLine) == ScanLines(ls, header, key, i)
      invariant sectionFound <==> sectionStart >= 0
      invariant keyFound <==> keyLine >= 0
    {
      var m := Parse(lines[i]);
      if m.Header? {
        if m.name == header {
          sectionFound := true;
          sectionStart := i;
          sectionEnd := lineCount;
        } else if sectionFound && sectionEnd == lineCount {
          sectionEnd := i;
        }
      }
      if sectionFound && key.Some? && !keyFound && i > sectionStart && (sectionEnd == lineCount || i < sectionEnd) {
        if m.Entry? && m.key == key.value {
          keyFound := true;
          keyLine := i;
        }
      }
    }
  }

  /** The search for the last line of a section with text on it. */
  method FindInsert(lines: array<Text>, lineCount: nat, sectionStart: nat, sectionEnd: nat) returns (insertAt: nat)
    requires sectionStart < sectionEnd <= lineCount <= lines.Length
    ensures insertAt == InsertAt(lines[..lineCount], sectionStart, sectionEnd)
  {
    hide Trim;
    insertAt := sectionEnd;
    ghost var ls := lines[..lineCount];
    var i: int := sectionEnd - 1;
    while i > sectionStart
      invariant sectionStart <= i < sectionEnd
      invariant LastText(ls, sectionStart, sectionEnd, i + 1) == InsertAt(ls, sectionStart, sectionEnd)
      decreases i
    {
      var t := TrimText(lines[i]);
      if t != [] {
        insertAt := i + 1;
        return;
      }
      i := i - 1;
    }
  }

  /** The shifting loop: the lines from a place on move one up. */
  method Shift(lines: array<Text>, lineCount: nat, insertAt: nat)
    requires insertAt <= lineCount < lines.Length
    modifies lines
    ensures lines[..insertAt] == old(lines[..insertAt])
    ensures lines[insertAt + 1..lineCount + 1] == old(lines[insertAt..lineCount])
  {
    var i: int := lineCount;
    while i > insertAt
      invariant insertAt <= i <= lineCount
      invariant forall j :: 0 <= j <= i && j < lineCount ==> lines[j] == old(lines[j])
      invariant forall j :: i < j <= lineCount ==> lines[j] == old(lines[j - 1])
    {
      lines[i] := lines[i - 1];
      i := i - 1;
    }
  }

  method Insert(lines: array<Text>, lineCount: nat, insertAt: nat, newLine: Text)
    requires insertAt <= lineCount < lines.Length
    modifies lines
    ensures lines[..lineCount + 1] == old(lines[..lineCount][..insertAt]) + [newLine] + old(lines[..lineCount][insertAt..])
  {
    Shift(lines, lineCount, insertAt);
    lines[insertAt] := newLine;
  }

  method WriteLines(lines: array<Text>, lineCount: nat) returns (file: Text)
    requires lineCount <= lines.Length
    ensures file == Concat(lines[..lineCount])
  {
    file := [];
    for i := 0 to lineCount
      invariant file == Concat(lines[..i])
    {
      assert lines[..i + 1] == lines[..i] + [lines[i]];
      ConcatAppend(lines[..i], [lines[i]]);
      assert Concat([lines[i]]) == lines[i];
      file := file + lines[i];
    }
  }

  /** `config_set`: the new content of the file; a missing file has no lines. */
  method ConfigSet(file: Option<Text>, section: Text, key: Text, value: Text, comment: Text) returns (r: Text)
    ensures r == Concat(Set(Split(if file.Some? then file.value else []), section, key, EntryText(key, value, comment)))
  {
    hide ScanLines;
    hide Split;
    hide EntryText;
    hide HeaderText;
    hide Concat;
    hide IsBlank;
    var text := if file.Some? then file.value else [];
    var lines, lineCount := ReadLines(text);
    var header, newLine := HeaderText(section), EntryText(key, value, comment);
    ghost var ls := lines[..lineCount];
    var sectionStart, sectionEnd, keyLine := ScanSection(lines, lineCount, header, Some(key));
    ScanIs(ls, header, Some(key), lineCount);
    if keyLine >= 0 {
      lines[keyLine] := newLine;
      assert lines[..lineCount] == ls[keyLine := newLine];
    } else if sectionStart >= 0 {
      var insertAt := FindInsert(lines, lineCount, sectionStart, sectionEnd);
      Insert(lines, lineCount, insertAt, newLine);
      lineCount := lineCount + 1;
    } else {
      lineCount := Append(lines, lineCount, header, newLine);
    }
    r := WriteLines(lines, lineCount);
  }

  /** The last branch of `config_set`: an empty line if the file ends in text, the header, the entry. */
  method Append(lines: array<Text>, lineCount: nat, header: Text, newLine: Text) returns (n: nat)
    requires lineCount + 3 <= lines.Length
    modifies lines
    ensures n <= lines.Length
    ensures var ls := old(lines[..lineCount]);
            lines[..n] == ls + (if EndsWithText(ls) then [[NEWLINE]] else []) + [header + [NEWLINE], newLine]
  {
    hide Trim;
    n := lineCount;
    ghost var ls := lines[..lineCount];
    if n > 0 && |lines[n - 1]| > 0 && lines[n - 1][|lines[n - 1]| - 1] == NEWLINE {
      var t := TrimText(lines[n - 1]);
      if t != [] {
        lines[n] := [NEWLINE];
        n := n + 1;
      }
    }
    lines[n] := header + [NEWLINE];
    n := n + 1;
    lines[n] := newLine;
    n := n + 1;
  }

  // ----- del -----

  /** `config_del`: the new content of the file, or nothing if there is nothing to delete. */
  method ConfigDel(file: Option<Text>, section: Text, key: Option<Text>) returns (r: Option<Text>)
    ensures file.None? ==> r == None
    ensures file.Some? ==>
              var d := Del(Split(file.value), section, key);
              r == if d.None? then None else Some(Concat(d.value))
  {
    hide ScanLines;
    hide Split;
    hide HeaderText;
    hide Concat;
    if file.None? {
      return None;
    }
    var lines, lineCount := ReadLines(file.value);
    ghost var ls := lines[..lineCount];
    var sectionStart, sectionEnd, keyLine := ScanSection(lines, lineCount, HeaderText(section), key);
    ScanIs(ls, HeaderText(section), key, lineCount);
    if sectionStart < 0 || (key.Some? && keyLine < 0) {
      return None;
    }
    var from, to := if key.None? then sectionStart else keyLine, if key.None? then sectionEnd else keyLine + 1;
    var out := WriteOthers(lines, lineCount, from, to);
    return Some(out);
  }

  function Kept(ls: Lines, from: nat, to: nat, i: nat): Lines
    requires from <= to <= |ls| && i <= |ls|
  {
    if i <= from then ls[..i] else if i <= to then ls[..from] else ls[..from] + ls[to..i]
  }

  lemma KeptSteps(ls: Lines, from: nat, to: nat, i: nat)
    requires from <= to <= |ls| && i <= |ls|
    ensures Kept(ls, from, to, 0) == [] && Kept(ls, from, to, |ls|) == ls[..from] + ls[to..]
    ensures i < |ls| ==> Kept(ls, from, to, i + 1) == Kept(ls, from, to, i) + (if from <= i < to then [] else [ls[i]])
  {
  }

  /** The writing loop of `config_del`: every line but those to be deleted. */
  method WriteOthers(lines: array<Text>, lineCount: nat, from: nat, to: nat) returns (file: Text)
    requires from <= to <= lineCount <= lines.Length
    ensures file == Concat(lines[..lineCount][..from] + lines[..lineCount][to..])
  {
    hide Concat;
    hide Kept;
    file := [];
    ghost var ls := lines[..lineCount];
    ConcatNone();
    KeptSteps(ls, from, to, 0);
    for i := 0 to lineCount
      invariant file == Concat(Kept(ls, from, to, i))
    {
      KeptSteps(ls, from, to, i);
      if from <= i < to {
        assert Kept(ls, from, to, i) + [] == Kept(ls, from, to, i);
        continue;
      }
      ConcatOne(Kept(ls, from, to, i), lines[i]);
      file := file + lines[i];
    }
  }

  lemma ConcatNone()
    ensures Concat([]) == []
  {
  }

  lemma ConcatOne(a: Lines, x: Text)
    ensures Concat(a + [x]) == Concat(a) + x
  {
    ConcatAppend(a, [x]);
    assert Concat([x]) == x;
  }

  // ----- the laws on files -----

  lemma EntryComplete(key: Text, value: Text, comment: Text)
    requires NoNewline(key) && NoNewline(value) && NoNewline(comment)
    ensures Complete(EntryText(key, value, comment))
  {
    var body := key + [SPACE, EQUALS, SPACE] + value + (if comment != [] then [SPACE, HASH, SPACE] + comment else []);
    assert EntryText(key, value, comment) == body + [NEWLINE];
    assert (body + [NEWLINE])[..|body|] == body;
  }

  lemma HeaderComplete(section: Text)
    requires NoNewline(section)
    ensures Complete(HeaderText(section) + [NEWLINE]) && Complete([NEWLINE])
  {
    var h := HeaderText(section);
    assert (h + [NEWLINE])[..|h|] == h;
  }

  /** Set writes behind a last line that has no newline, so that it and the new text become one line. */
  ghost predicate JoinsLast(ls: Lines, section: Text, k: Text) {
    SetPlace(ls, section, k) == |ls| && ls != [] && !Complete(ls[|ls| - 1])
  }

  lemma SetLines(ls: Lines, section: Text, k: Text, line: Text)
    requires FileLines(ls) && NoNewline(section) && Complete(line) && !JoinsLast(ls, section, k)
    ensures FileLines(Set(ls, section, k, line))
  {
    HeaderComplete(section);
    CompleteNotEmpty(line);
    hide Complete;
    hide NoNewline;
    hide HeaderText;
    hide Set;
    hide SetPlace;
    if Present(ls, HeaderText(section)) {
      var a, x, b := SetParts(ls, section, k, line);
      hide FileLines;
      Replaced(a, x, b, line);
    } else {
      SetAppends(ls, section, k, line);
      CompleteNotEmpty([NEWLINE]);
      CompleteNotEmpty(HeaderText(section) + [NEWLINE]);
    }
  }

  lemma Replaced(a: Lines, x: Lines, b: Lines, line: Text)
    requires FileLines(a + x + b) && |x| <= 1 && Complete(line)
    requires a != [] && x == [] && b == [] ==> Complete(a[|a| - 1])
    ensures FileLines(a + [line] + b)
  {
    CompleteNotEmpty(line);
    hide Complete;
    hide NoNewline;
    var was, now := a + x + b, a + [line] + b;
    forall i | 0 <= i < |a| ensures now[i] == a[i] == was[i] { }
    forall i | 0 <= i < |b| ensures now[|a| + 1 + i] == b[i] == was[|a + x| + i] { }
  }

  /** What set makes of lines when it writes behind a last line without a newline: nothing but new lines
      at the end, of which the first one joins the last line of the file. */
  lemma SetJoins(ls: Lines, section: Text, k: Text, line: Text) returns (y: Text, rest: Lines)
    requires FileLines(ls) && NoNewline(section) && Complete(line) && JoinsLast(ls, section, k)
    ensures Set(ls, section, k, line) == ls + [y] + rest && NoNewline(ls[|ls| - 1])
    ensures var n := |ls| - 1;
            Split(Concat(Set(ls, section, k, line))) == ls[..n] + [ls[n] + y] + rest
    ensures Present(ls, HeaderText(section)) ==>
              y == line && rest == [] && Under(ls, HeaderText(section)) && NoKeyBefore(ls, HeaderText(section), k, |ls|)
    ensures !Present(ls, HeaderText(section)) ==> y == HeaderText(section) + [NEWLINE] && rest == [line]
  {
    hide Set;
    hide SetPlace;
    hide HeaderText;
    hide Split;
    hide Concat;
    hide Under;
    var h, n := HeaderText(section), |ls| - 1;
    HeaderComplete(section);
    if Present(ls, h) {
      var a, x, b := SetParts(ls, section, k, line);
      assert a == ls && x == [] && b == [];
      y, rest := line, [];
      assert ls + [line] + [] == ls + [line];
    } else {
      SetAppends(ls, section, k, line);
      y, rest := h + [NEWLINE], [line];
      assert ls + [] + [y, line] == ls + [y] + rest;
    }
    assert ls == ls[..n] + [ls[n]];
    ConcatJoined(ls[..n], ls[n], y, rest);
    JoinedComplete(ls[n], y);
    SplitConcat(ls[..n] + [ls[n] + y] + rest);
  }

  lemma JoinedComplete(x: Text, y: Text)
    requires NoNewline(x) && Complete(y)
    ensures Complete(x + y)
  {
    assert (x + y)[..|x + y| - 1] == x + y[..|y| - 1];
  }

  lemma ConcatJoined(a: Lines, x: Text, y: Text, rest: Lines)
    ensures Concat(a + [x] + [y] + rest) == Concat(a + [x + y] + rest)
  {
    ConcatAppend(a + [x] + [y], rest);
    ConcatAppend(a + [x + y], rest);
    ConcatOne(a + [x], y);
    ConcatOne(a, x);
    ConcatOne(a, x + y);
    Assoc(Concat(a), x, y);
  }

  /** A file that set has written is read as the lines that set made, exactly if set does not write
      behind a last line without a newline; then the laws of IniEdit are laws of the files. */
  lemma SetOnFile(file: Text, section: Text, k: Text, v: Text, comment: Text)
    requires NoNewline(section) && NoNewline(k) && NoNewline(v) && NoNewline(comment)
    ensures var ls := Set(Split(file), section, k, EntryText(k, v, comment));
            Split(Concat(ls)) == ls <==> !JoinsLast(Split(file), section, k)
  {
    hide Split;
    hide Concat;
    hide Set;
    hide EntryText;
    hide HeaderText;
    hide Complete;
    hide NoNewline;
    var ls, line := Split(file), EntryText(k, v, comment);
    SplitIsLines(file);
    EntryComplete(k, v, comment);
    if JoinsLast(ls, section, k) {
      var y, rest := SetJoins(ls, section, k, line);
      assert |ls + [y] + rest| == |ls[..|ls| - 1] + [ls[|ls| - 1] + y] + rest| + 1;
    } else {
      SetLines(ls, section, k, line);
      SplitConcat(Set(ls, section, k, line));
    }
  }

  /** What del writes is read as the lines it kept, for every file. */
  lemma DelOnFile(file: Text, section: Text, k: Option<Text>)
    requires Del(Split(file), section, k).Some?
    ensures var ls := Del(Split(file), section, k).value;
            Split(Concat(ls)) == ls
  {
    hide Split;
    hide Concat;
    hide ScanLines;
    hide HeaderText;
    hide Complete;
    hide NoNewline;
    var ls := Split(file);
    var s := ScanLines(ls, HeaderText(section), k, |ls|);
    SplitIsLines(file);
    if k.None? {
      LinesWithout(ls, s.start, s.end);
    } else {
      LinesWithout(ls, s.keyLine, s.keyLine + 1);
    }
    SplitConcat(Del(ls, section, k).value);
  }

  lemma LinesWithout(ls: Lines, i: nat, j: nat)
    requires FileLines(ls) && i <= j <= |ls|
    ensures FileLines(ls[..i] + ls[j..])
  {
    hide Complete;
    hide NoNewline;
    var kept := ls[..i] + ls[j..];
    if i == j {
      assert kept == ls;
    } else if i > 0 {
      CompleteNotEmpty(ls[i - 1]);
    }
    forall m | 0 <= m < |kept| ensures kept[m] == ls[if m < i then m else m + (j - i)] { }
  }

  lemma LastKey(a: Lines, last: Text, h: Text, k: Text)
    requires Under(a + [last], h) && NoKeyBefore(a + [last], h, k, |a| + 1)
    ensures Meaning(last).Entry? ==> Meaning(last).key != k
  {
    hide Meaning;
    hide Under;
    var ls := a + [last];
    assert ls[..|a| + 1] == ls && ls[|a|] == last;
    UnderAfter(ls, h, |a|);
    assert !KeyAt(ls, h, k, |a|);
  }

  lemma NoHeaderIn(a: Lines, last: Text, h: Text)
    requires !Present(a + [last], h)
    ensures Meaning(last) != Header(h) && forall i :: 0 <= i < |a| ==> !IsHeader(a, h, i)
  {
    hide Meaning;
    var ls := a + [last];
    assert !IsHeader(ls, h, |a|);
    forall i | 0 <= i < |a| ensures !IsHeader(a, h, i) { assert !IsHeader(ls, h, i); }
  }

  /** The section is there: its last line becomes one line with the new one. */
  lemma JoinedPresent(a: Lines, last: Text, y: Text, h: Text, k: Text, v: Text)
    requires Under(a + [last], h) && NoKeyBefore(a + [last], h, k, |a| + 1)
    requires IsBlank(last) ==> Meaning(last + y) == Entry(k, v) && Meaning(last) == Other
    requires !IsBlank(last) ==> (Meaning(last + y).Entry? && Meaning(last + y).key == k ==> Meaning(last).Entry? && Meaning(last).key == k)
    ensures Get(a + [last + y], h, k, Before) ==
            if !IsBlank(last) || PlaceAfter(a + [last], h, Before) != Inside then None else Some(v)
  {
    hide Meaning;
    hide IsBlank;
    hide Under;
    hide Get;
    hide PlaceAfter;
    LastKey(a, last, h, k);
    NoKeyNothingIn(a + [last], h, k, |a|);
    assert (a + [last])[..|a|] == a;
    GetSplit(a, [last + y], h, k, Before);
    One(last + y, h, k, PlaceAfter(a, h, Before));
    PlaceSplit(a, [last], h, Before);
    One(last, h, k, PlaceAfter(a, h, Before));
  }

  /** The section is not there: the last line becomes one line with the new header. */
  lemma JoinedAbsent(a: Lines, last: Text, y: Text, line: Text, h: Text, k: Text, v: Text)
    requires !Present(a + [last], h) && Meaning(line) == Entry(k, v)
    requires IsBlank(last) ==> Meaning(last + y) == Header(h)
    requires !IsBlank(last) ==> (Meaning(last + y) == Header(h) ==> Meaning(last) == Header(h))
    ensures Get(a + [last + y] + [line], h, k, Before) == if IsBlank(last) then Some(v) else None
  {
    hide Meaning;
    hide IsBlank;
    hide Get;
    hide PlaceAfter;
    NoHeaderIn(a, last, h);
    Absent(a, h, k);
    var m := Meaning(last + y);
    assert m.Header? && m.name == h ==> m == Header(h);
    assert a + [last + y] + [line] == a + ([last + y] + [line]);
    GetSplit(a, [last + y] + [line], h, k, Before);
    GetSplit([last + y], [line], h, k, Before);
    One(last + y, h, k, Before);
    One(line, h, k, Turn(h, Before, last + y));
  }

  /** Get of what set makes when it joins its text to the last line: as if that line were not there if
      it is blank, and nothing otherwise. */
  lemma JoinedGet(ls: Lines, section: Text, k: Text, v: Text, comment: Text)
    requires FileLines(ls) && JoinsLast(ls, section, k) && CLOSE !in section && GoodKey(k) && GoodValue(v)
    requires NoNewline(section) && NoNewline(k) && NoNewline(v) && NoNewline(comment)
    ensures var h := HeaderText(section);
            Get(Split(Concat(Set(ls, section, k, EntryText(k, v, comment)))), h, k, Before) ==
            if !IsBlank(ls[|ls| - 1]) || (Present(ls, h) && PlaceAfter(ls, h, Before) != Inside) then None else Some(v)
  {
    var h, line, n := HeaderText(section), EntryText(k, v, comment), |ls| - 1;
    var a, last := ls[..n], ls[n];
    assert ls == a + [last];
    EntryComplete(k, v, comment);
    EntryMeaning(k, v, comment);
    HeaderMeaning(section);
    var y, rest := SetJoins(ls, section, k, line);
    if IsBlank(last) {
      BlankBefore(last, y);
    } else if Present(ls, h) {
      JoinedEntry(last, k, v, comment);
    } else {
      JoinedHeader(last, section);
    }
    hide *;
    if Present(ls, h) {
      assert a + [last + y] + [] == a + [last + y];
      JoinedPresent(a, last, y, h, k, v);
    } else {
      JoinedAbsent(a, last, y, line, h, k, v);
    }
  }

  /** config_get of what config_set has written, on every file: the value, unless set writes where a
      reader of the section does not come, or what it writes joins a last line that has no newline and
      is not blank; then nothing. */
  lemma SetThenGetOnFile(file: Text, section: Text, k: Text, v: Text, comment: Text)
    requires CLOSE !in section && GoodKey(k) && GoodValue(v)
    requires NoNewline(section) && NoNewline(k) && NoNewline(v) && NoNewline(comment)
    ensures var ls, h := Split(file), HeaderText(section);
            && SetPlace(ls, section, k) <= |ls|
            && Get(Split(Concat(Set(ls, section, k, EntryText(k, v, comment)))), h, k, Before) ==
               if (Present(ls, h) && PlaceAfter(ls[..SetPlace(ls, section, k)], h, Before) != Inside)
                  || (JoinsLast(ls, section, k) && !IsBlank(ls[|ls| - 1]))
               then None else Some(v)
  {
    hide Split;
    hide Concat;
    hide Set;
    hide Get;
    hide PlaceAfter;
    hide EntryText;
    hide HeaderText;
    hide IsBlank;
    hide GoodKey;
    hide GoodValue;
    hide SetPlace;
    var ls := Split(file);
    SetOnFile(file, section, k, v, comment);
    SetThenGet(ls, section, k, v, comment);
    if JoinsLast(ls, section, k) {
      SplitIsLines(file);
      JoinedGet(ls, section, k, v, comment);
      assert ls[..|ls|] == ls;
    }
  }

  /** With at most one header of the section, the value is read unless the last line is in the way. */
  lemma SetThenGetUniqueFile(file: Text, section: Text, k: Text, v: Text, comment: Text)
    requires Unique(Split(file), HeaderText(section))
    requires CLOSE !in section && GoodKey(k) && GoodValue(v)
    requires NoNewline(section) && NoNewline(k) && NoNewline(v) && NoNewline(comment)
    ensures var ls := Split(file);
            Get(Split(Concat(Set(ls, section, k, EntryText(k, v, comment)))), HeaderText(section), k, Before) ==
            if JoinsLast(ls, section, k) && !IsBlank(ls[|ls| - 1]) then None else Some(v)
  {
    hide *;
    SetThenGetOnFile(file, section, k, v, comment);
    SetThenGet(Split(file), section, k, v, comment);
    SetThenGetUnique(Split(file), section, k, v, comment);
  }

  /** A file whose last line has no newline: set writes behind it, and get does not find the key. */
  lemma SetMayJoin(k: Text, v: Text)
    requires GoodKey(k) && GoodValue(v) && NoNewline(k) && NoNewline(v)
    ensures var file := [120];
            Get(Split(Concat(Set(Split(file), [97], k, EntryText(k, v, [])))), HeaderText([97]), k, Before) == None
  {
    var file, h: Text := [120], HeaderText([97]);
    FirstOfOne(file);
    assert file[1..] == [] && Split(file) == [file];
    assert Trim(file) == file;
    assert Meaning(file) == Other;
    hide Meaning;
    hide Split;
    hide Concat;
    hide Set;
    hide SetPlace;
    hide Get;
    hide EntryText;
    hide HeaderText;
    hide GoodKey;
    hide GoodValue;
    SetAppends([file], [97], k, EntryText(k, v, []));
    SetThenGetOnFile(file, [97], k, v, []);
  }

  // ----- the bytes of a file -----

  lemma {:induction false} ConcatSplit(t: Text)
    ensures Concat(Split(t)) == t
    decreases |t|
  {
    hide FirstLine;
    if t != [] {
      var r := FirstLine(t);
      ConcatSplit(t[|r|..]);
      assert Split(t)[1..] == Split(t[|r|..]) && t == r + t[|r|..];
    }
  }

  /** What config_set writes when the section is missing, byte for byte: the file, an empty line if it
      ends with a complete line of text, `[section]`, and `key = value` or `key = value # comment`. */
  lemma SetAbsentBytes(file: Text, section: Text, k: Text, v: Text, comment: Text)
    requires !Present(Split(file), [91] + section + [93])
    ensures var ls := Split(file);
            var gap := ls != [] && Complete(ls[|ls| - 1]) && !Blanks(ls[|ls| - 1]);
            Concat(Set(ls, section, k, EntryText(k, v, comment))) ==
            file + (if gap then [10] else [])
            + ([91] + section + [93, 10])
            + (k + [32, 61, 32] + v + (if comment == [] then [] else [32, 35, 32] + comment) + [10])
  {
    hide Split;
    hide Concat;
    hide Set;
    var ls, line := Split(file), EntryText(k, v, comment);
    SplitIsLines(file);
    ConcatSplit(file);
    SetAppends(ls, section, k, line);
    assert HeaderText(section) + [NEWLINE] == [91] + section + [93, 10];
    if ls != [] { BlankIs(ls[|ls| - 1]); }
    assert EndsWithText(ls) <==> ls != [] && Complete(ls[|ls| - 1]) && !Blanks(ls[|ls| - 1]);
    hide EndsWithText;
    hide HeaderText;
    hide EntryText;
    hide Complete;
    hide Blanks;
    var gap: Lines := if EndsWithText(ls) then [[NEWLINE]] else [];
    assert ls + gap + [HeaderText(section) + [NEWLINE], line] == ls + gap + [HeaderText(section) + [NEWLINE]] + [line];
    ConcatOne(ls + gap + [HeaderText(section) + [NEWLINE]], line);
    ConcatOne(ls + gap, HeaderText(section) + [NEWLINE]);
    if EndsWithText(ls) {
      ConcatOne(ls, [NEWLINE]);
    } else {
      assert ls + gap == ls && file + [] == file;
    }
  }

  /** What config_get prints for a file that has, behind lines without a header of the section, the
      line `[section]`, then lines that are neither headers nor for the key, then the line `key = value`,
      each with any white space, and with a comment or none behind the value. */
  lemma ConfigGetReads(a: Lines, b: Lines, w0: Text, section: Text, rest: Text,
                       w1: Text, k: Text, w2: Text, w3: Text, v: Text, w4: Text, comment: Text, more: Text)
    requires 93 !in section && GoodKey(k) && GoodValue(v) && Blanks(w0) && Blanks(w1) && Blanks(w2) && Blanks(w3) && Blanks(w4)
    requires comment == [] || comment[0] == 35 || comment[0] == 59
    requires 10 !in w0 + section + rest && 10 !in w1 + k + w2 + w3 + v + w4 + comment
    requires forall i :: 0 <= i < |a| ==> Complete(a[i]) && Meaning(a[i]) != Header([91] + section + [93])
    requires forall i :: 0 <= i < |b| ==> Complete(b[i]) && !Meaning(b[i]).Header? && (Meaning(b[i]).Entry? ==> Meaning(b[i]).key != k)
    ensures var head, line := w0 + [91] + section + [93] + rest + [10], w1 + k + w2 + [61] + w3 + v + w4 + comment + [10];
            var file := Concat(a) + (head + (Concat(b) + (line + more)));
            Get(Split(file), HeaderText(section), k, Before) == Some(v)
  {
    var h := HeaderText(section);
    assert h == [91] + section + [93];
    var head, line := w0 + [91] + section + [93] + rest + [10], w1 + k + w2 + [61] + w3 + v + w4 + comment + [10];
    HeadLine(w0, section, rest);
    EntryLine(w1, k, w2, w3, v, w4, comment);
    hide Split;
    hide Concat;
    hide Meaning;
    hide Complete;
    hide HeaderText;
    var file := Concat(a) + (head + (Concat(b) + (line + more)));
    SplitBehind(a, head + (Concat(b) + (line + more)));
    SplitOne(head, Concat(b) + (line + more));
    SplitBehind(b, line + more);
    SplitOne(line, more);
    GetReads(a, head, b, line, Split(more), h, k, v);
  }

  lemma HeadLine(w0: Text, section: Text, rest: Text)
    requires 93 !in section && Blanks(w0) && 10 !in w0 + section + rest
    ensures var head := w0 + [91] + section + [93] + rest + [10];
            Complete(head) && Meaning(head) == Header([91] + section + [93])
  {
    var body := w0 + [91] + section + [93] + rest;
    HeaderRead(w0, section, rest + [10]);
    assert body + [10] == w0 + [91] + section + [93] + (rest + [10]);
    assert (body + [10])[..|body|] == body;
    hide Meaning;
    assert 10 !in body;
  }

  lemma EntryLine(w1: Text, k: Text, w2: Text, w3: Text, v: Text, w4: Text, comment: Text)
    requires GoodKey(k) && GoodValue(v) && Blanks(w1) && Blanks(w2) && Blanks(w3) && Blanks(w4)
    requires comment == [] || comment[0] == 35 || comment[0] == 59
    requires 10 !in w1 + k + w2 + w3 + v + w4 + comment
    ensures var line := w1 + k + w2 + [61] + w3 + v + w4 + comment + [10];
            Complete(line) && Meaning(line) == Entry(k, v)
  {
    var start := w1 + k + w2 + [61] + w3 + v;
    var body := start + w4 + comment;
    assert (body + [10])[..|body|] == body;
    hide Meaning;
    assert 10 !in body;
    if comment == [] {
      EntryRead(w1, k, w2, w3, v, w4 + [10]);
      assert body + [10] == start + (w4 + [10]);
    } else {
      EntryCommentRead(w1, k, w2, w3, v, w4, comment[0], comment[1..] + [10]);
      assert comment == [comment[0]] + comment[1..];
      assert body + [10] == start + w4 + [comment[0]] + (comment[1..] + [10]);
    }
  }

  lemma SplitOne(line: Text, rest: Text)
    requires Complete(line)
    ensures Split(line + rest) == [line] + Split(rest)
  {
    FirstOfComplete(line, rest);
    CompleteNotEmpty(line);
    hide FirstLine;
    hide Complete;
    assert (line + rest)[|line|..] == rest;
  }

  lemma {:induction false} SplitBehind(a: Lines, t: Text)
    requires forall i :: 0 <= i < |a| ==> Complete(a[i])
    ensures Split(Concat(a) + t) == a + Split(t)
    decreases |a|
  {
    hide Complete;
    hide Split;
    if a == [] {
      assert Concat(a) + t == t;
    } else {
      SplitOne(a[0], Concat(a[1..]) + t);
      SplitBehind(a[1..], t);
      assert Concat(a) + t == a[0] + (Concat(a[1..]) + t);
      assert a + Split(t) == [a[0]] + (a[1..] + Split(t));
    }
  }
}
