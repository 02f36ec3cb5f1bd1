// The get, set and delete operations of src/config.c on the lines of an INI file, and the laws between
// them. A section may have several headers in one file: a reader stops at the first header of another
// section after it has entered its own, an editor works on the last header, or on the first line
// for the key under any of them.

module IniEdit {
  import opened Bytes
  import opened IniLine

  type Lines = seq<Text>

  // ----- reading -----

  /** How far a reader is: before its section, inside it, or past it. */
  datatype Place = Before | Inside | Past

  function Turn(h: Text, p: Place, line: Text): Place {
    if !Meaning(line).Header? || p == Past then p
    else if Meaning(line).name == h then Inside
    else if p == Inside then Past
    else Before
  }

  function PlaceAfter(ls: Lines, h: Text, p: Place): Place {
    if ls == [] then p else PlaceAfter(ls[1..], h, Turn(h, p, ls[0]))
  }

  /** What `config_get` prints, from a place on. */
  function Get(ls: Lines, h: Text, k: Text, p: Place): Option<Text> {
    if ls == [] then None
    else
      var m := Meaning(ls[0]);
      if p == Inside && m.Entry? && m.key == k then Some(m.value) else Get(ls[1..], h, k, Turn(h, p, ls[0]))
  }

  // ----- editing -----

  /** The last header so far is the section's. */
  function Under(ls: Lines, h: Text): bool {
    if ls == [] then false
    else
      var m := Meaning(ls[|ls| - 1]);
      if m.Header? then m.name == h else Under(ls[..|ls| - 1], h)
  }

  /** A line under the section's header that is for a key. */
  predicate KeyAt(ls: Lines, h: Text, k: Text, i: nat)
    requires i < |ls|
  {
    Under(ls[..i], h) && Meaning(ls[i]).Entry? && Meaning(ls[i]).key == k
  }

  predicate IsHeader(ls: Lines, h: Text, i: nat)
    requires i < |ls|
  {
    Meaning(ls[i]) == Header(h)
  }

  /** What the scan of an editor finds: the section's last header and where that section ends, and the
      first line for the key. */
  datatype Scan = Scan(start: int, end: int, keyLine: int)

  function ScanLines(ls: Lines, h: Text, k: Option<Text>, i: nat): Scan
    requires i <= |ls|
  {
    if i == 0 then Scan(-1, -1, -1) else ScanLine(ls, h, k, i - 1, ScanLines(ls, h, k, i - 1))
  }

  /** One turn of the scanning loop. */
  function ScanLine(ls: Lines, h: Text, k: Option<Text>, i: nat, s: Scan): Scan
    requires i < |ls|
  {
    var m := Meaning(ls[i]);
    var t :=
      if m == Header(h) then s.(start := i, end := |ls|)
      else if m.Header? && s.start >= 0 && s.end == |ls| then s.(end := i)
      else s;
    if t.start >= 0 && t.keyLine < 0 && i > t.start && (t.end == |ls| || i < t.end)
       && m.Entry? && k == Some(m.key)
    then t.(keyLine := i) else t
  }

  /** Where a new line goes: behind the last line of the section that is not blank. */
  function InsertAt(ls: Lines, start: int, end: nat): (at: nat)
    requires end <= |ls|
    ensures at <= end && (start < end ==> start < at)
  {
    LastText(ls, start, end, end)
  }

  function LastText(ls: Lines, start: int, end: nat, i: nat): (at: nat)
    requires i <= end <= |ls|
    ensures at <= end && (start < end ==> start < at)
  {
    if i == 0 || i - 1 <= start then end else if !IsBlank(ls[i - 1]) then i else LastText(ls, start, end, i - 1)
  }

  predicate EndsWithText(ls: Lines) {
    && |ls| > 0
    && ls[|ls| - 1] != [] && ls[|ls| - 1][|ls[|ls| - 1]| - 1] == NEWLINE
    && !IsBlank(ls[|ls| - 1])
  }

  /** `config_set` */
  function Set(ls: Lines, section: Text, k: Text, line: Text): Lines {
    var s := ScanLines(ls, HeaderText(section), Some(k), |ls|);
    if 0 <= s.keyLine < |ls| then ls[s.keyLine := line]
    else if 0 <= s.start && 0 <= s.end <= |ls| then
      var at := InsertAt(ls, s.start, s.end);
      ls[..at] + [line] + ls[at..]
    else ls + (if EndsWithText(ls) then [[NEWLINE]] else []) + [HeaderText(section) + [NEWLINE], line]
  }

  /** `config_del`: a key, or a whole section. */
  function Del(ls: Lines, section: Text, k: Option<Text>): Option<Lines> {
    var s := ScanLines(ls, HeaderText(section), k, |ls|);
    if s.start < 0 || s.end < s.start || s.end > |ls| then None
    else if k.None? then Some(ls[..s.start] + ls[s.end..])
    else if 0 <= s.keyLine < |ls| then Some(ls[..s.keyLine] + ls[s.keyLine + 1..])
    else None
  }

  // ----- what the scan finds -----

  /** The meaning of the scan's variables after `i` lines. */
  ghost predicate ScanMeans(ls: Lines, h: Text, k: Option<Text>, i: nat, s: Scan)
    requires i <= |ls|
  {
    && (s.start < 0 ==> s.start == -1 && s.end == -1 && forall j :: 0 <= j < i ==> !IsHeader(ls, h, j))
    && (s.start >= 0 ==> s.start < i && IsHeader(ls, h, s.start) && forall j :: s.start < j < i ==> !IsHeader(ls, h, j))
    && (s.start >= 0 ==> s.start < s.end && (s.end == |ls| || s.end < i))
    && (s.start >= 0 ==> forall j :: s.start < j < Min(s.end, i) ==> !Meaning(ls[j]).Header?)
    && (s.start >= 0 && s.end < i ==> Meaning(ls[s.end]).Header?)
    && (s.keyLine < 0 ==> forall j :: 0 <= j < i && k.Some? ==> !KeyAt(ls, h, k.value, j))
    && (s.keyLine >= 0 ==> k.Some? && s.keyLine < i && KeyAt(ls, h, k.value, s.keyLine) &&
                           forall j :: 0 <= j < s.keyLine ==> !KeyAt(ls, h, k.value, j))
  }

  lemma UnderAfter(ls: Lines, h: Text, i: nat)
    requires i < |ls|
    ensures Under(ls[..i + 1], h) == if Meaning(ls[i]).Header? then IsHeader(ls, h, i) else Under(ls[..i], h)
    ensures !Under(ls[..0], h)
  {
    hide Meaning;
    assert ls[..i + 1][..i] == ls[..i];
  }

  /** Whether a line is under the section, in terms of the scan's variables. */
  lemma {:induction false} UnderMeans(ls: Lines, h: Text, start: nat, i: nat)
    requires start < i <= |ls| && IsHeader(ls, h, start) && forall j :: start < j < i ==> !IsHeader(ls, h, j)
    ensures Under(ls[..i], h) <==> forall j :: start < j < i ==> !Meaning(ls[j]).Header?
  {
    hide Meaning;
    hide Under;
    UnderAfter(ls, h, i - 1);
    if i - 1 > start {
      UnderMeans(ls, h, start, i - 1);
    }
  }

  lemma {:induction false} NotUnder(ls: Lines, h: Text, i: nat)
    requires i <= |ls| && forall j :: 0 <= j < i ==> !IsHeader(ls, h, j)
    ensures !Under(ls[..i], h)
  {
    hide Meaning;
    hide Under;
    if i > 0 {
      UnderAfter(ls, h, i - 1);
      NotUnder(ls, h, i - 1);
    } else if |ls| > 0 {
      UnderAfter(ls, h, 0);
    } else {
      UnderNone(h);
      assert ls[..0] == [];
    }
  }

  lemma UnderNone(h: Text)
    ensures !Under([], h)
  {
  }

  lemma ScanStep(ls: Lines, h: Text, k: Option<Text>, i: nat, s: Scan)
    requires i < |ls| && ScanMeans(ls, h, k, i, s)
    ensures ScanMeans(ls, h, k, i + 1, ScanLine(ls, h, k, i, s))
  {
    hide Meaning;
    hide Under;
    if s.start >= 0 {
      UnderMeans(ls, h, s.start, i);
    } else {
      NotUnder(ls, h, i);
    }
  }

  lemma {:induction false} ScanIs(ls: Lines, h: Text, k: Option<Text>, i: nat)
    requires i <= |ls|
    ensures ScanMeans(ls, h, k, i, ScanLines(ls, h, k, i))
  {
    hide ScanLine;
    hide Meaning;
    if i > 0 {
      ScanIs(ls, h, k, i - 1);
      ScanStep(ls, h, k, i - 1, ScanLines(ls, h, k, i - 1));
    }
  }

  // ----- reading in pieces -----

  lemma {:induction false} PlaceSplit(a: Lines, b: Lines, h: Text, p: Place)
    ensures PlaceAfter(a + b, h, p) == PlaceAfter(b, h, PlaceAfter(a, h, p))
    decreases |a|
  {
    hide Turn;
    if a == [] {
      assert a + b == b;
    } else {
      assert (a + b)[1..] == a[1..] + b;
      PlaceSplit(a[1..], b, h, Turn(h, p, a[0]));
    }
  }

  lemma {:induction false} GetSplit(a: Lines, b: Lines, h: Text, k: Text, p: Place)
    ensures Get(a + b, h, k, p) ==
            if Get(a, h, k, p).Some? then Get(a, h, k, p) else Get(b, h, k, PlaceAfter(a, h, p))
    decreases |a|
  {
    hide Turn;
    hide Meaning;
    if a == [] {
      assert a + b == b;
    } else {
      assert (a + b)[1..] == a[1..] + b;
      GetSplit(a[1..], b, h, k, Turn(h, p, a[0]));
    }
  }

  lemma {:induction false} PastFindsNothing(ls: Lines, h: Text, k: Text)
    ensures Get(ls, h, k, Past) == None && PlaceAfter(ls, h, Past) == Past
    decreases |ls|
  {
    hide Meaning;
    if ls != [] {
      PastFindsNothing(ls[1..], h, k);
    }
  }

  /** A reader that is inside a section is under its header, and one under it has entered it. */
  lemma {:induction false} InsideIsUnder(ls: Lines, h: Text)
    ensures PlaceAfter(ls, h, Before) == Inside ==> Under(ls, h)
    ensures Under(ls, h) ==> PlaceAfter(ls, h, Before) != Before
    decreases |ls|
  {
    hide Meaning;
    if ls != [] {
      var n := |ls| - 1;
      InsideIsUnder(ls[..n], h);
      assert ls == ls[..n] + [ls[n]];
      PlaceSplit(ls[..n], [ls[n]], h, Before);
      assert PlaceAfter([ls[n]], h, PlaceAfter(ls[..n], h, Before)) == Turn(h, PlaceAfter(ls[..n], h, Before), ls[n]);
    }
  }

  /** No line for the key: nothing to be read. */
  lemma {:induction false} NoKeyNothing(ls: Lines, h: Text, k: Text)
    requires forall i :: 0 <= i < |ls| ==> !KeyAt(ls, h, k, i)
    ensures Get(ls, h, k, Before) == None
    decreases |ls|
  {
    hide Meaning;
    if ls != [] {
      var n := |ls| - 1;
      var a := ls[..n];
      assert ls == a + [ls[n]];
      forall i | 0 <= i < n ensures !KeyAt(a, h, k, i) {
        assert a[..i] == ls[..i] && a[i] == ls[i];
        assert !KeyAt(ls, h, k, i);
      }
      NoKeyNothing(a, h, k);
      GetSplit(a, [ls[n]], h, k, Before);
      InsideIsUnder(a, h);
      assert !KeyAt(ls, h, k, n);
      One(ls[n], h, k, PlaceAfter(a, h, Before));
    }
  }

  /** What one line gives. */
  lemma One(line: Text, h: Text, k: Text, p: Place)
    ensures Get([line], h, k, p) ==
            if p == Inside && Meaning(line).Entry? && Meaning(line).key == k then Some(Meaning(line).value) else None
    ensures PlaceAfter([line], h, p) == Turn(h, p, line)
  {
    hide Meaning;
    assert [line][1..] == [];
  }

  lemma {:induction false} UnderOne(ls: Lines, h: Text, g: Text)
    requires Under(ls, h) && Under(ls, g)
    ensures h == g
    decreases |ls|
  {
    hide Meaning;
    if ls != [] && !Meaning(ls[|ls| - 1]).Header? {
      UnderOne(ls[..|ls| - 1], h, g);
    }
  }

  /** Reading another key is not disturbed by an entry for this one, at a place under this section. */
  lemma EntryIsInvisible(a: Lines, line: Text, h: Text, k: Text, g: Text, l: Text)
    requires Under(a, h) && Meaning(line).Entry? && Meaning(line).key == k && (g, l) != (h, k)
    ensures Get([line], g, l, PlaceAfter(a, g, Before)) == None
    ensures PlaceAfter([line], g, PlaceAfter(a, g, Before)) == PlaceAfter(a, g, Before)
  {
    hide Meaning;
    hide Get;
    hide PlaceAfter;
    hide Under;
    var p := PlaceAfter(a, g, Before);
    One(line, g, l, p);
    InsideIsUnder(a, g);
    if p == Inside {
      UnderOne(a, h, g);
    }
  }

  /** Taking one entry out, putting one in or exchanging one, all for the same key of the section,
      leaves every other lookup as it was. */
  lemma OthersKept(a: Lines, x: Lines, y: Lines, b: Lines, h: Text, k: Text, g: Text, l: Text)
    requires Under(a, h) && (g, l) != (h, k) && |x| <= 1 && |y| <= 1
    requires forall i :: 0 <= i < |x| ==> Meaning(x[i]).Entry? && Meaning(x[i]).key == k
    requires forall i :: 0 <= i < |y| ==> Meaning(y[i]).Entry? && Meaning(y[i]).key == k
    ensures Get(a + x + b, g, l, Before) == Get(a + y + b, g, l, Before)
  {
    hide Meaning;
    Reading(a, x, b, h, k, g, l);
    Reading(a, y, b, h, k, g, l);
  }

  lemma Reading(a: Lines, x: Lines, b: Lines, h: Text, k: Text, g: Text, l: Text)
    requires Under(a, h) && (g, l) != (h, k) && |x| <= 1
    requires forall i :: 0 <= i < |x| ==> Meaning(x[i]).Entry? && Meaning(x[i]).key == k
    ensures Get(a + x + b, g, l, Before) == Get(a + b, g, l, Before)
  {
    hide Meaning;
    hide Get;
    hide PlaceAfter;
    hide Under;
    if x == [] {
      assert a + x + b == a + b;
    } else {
      assert x == [x[0]];
      EntryIsInvisible(a, x[0], h, k, g, l);
      assert a + x + b == a + (x + b);
      GetSplit(a, x + b, g, l, Before);
      GetSplit(x, b, g, l, PlaceAfter(a, g, Before));
      GetSplit(a, b, g, l, Before);
    }
  }

  // ----- the laws of set -----

  /** A section with a header in the file. */
  predicate Present(ls: Lines, h: Text) {
    exists i :: 0 <= i < |ls| && IsHeader(ls, h, i)
  }

  /** Where `config_set` writes: at the first line for the key, or behind the last section. */
  function SetPlace(ls: Lines, section: Text, k: Text): nat {
    var s := ScanLines(ls, HeaderText(section), Some(k), |ls|);
    if 0 <= s.keyLine < |ls| then s.keyLine
    else if 0 <= s.start && 0 <= s.end <= |ls| then InsertAt(ls, s.start, s.end)
    else |ls|
  }

  ghost predicate NoKeyBefore(ls: Lines, h: Text, k: Text, n: nat)
    requires n <= |ls|
  {
    forall i :: 0 <= i < n ==> !KeyAt(ls, h, k, i)
  }

  /** What set does to a file that has the section: it exchanges the first line for the key, or puts
      one in where there was none, under the section's header. */
  lemma SetParts(ls: Lines, section: Text, k: Text, line: Text) returns (a: Lines, x: Lines, b: Lines)
    requires Present(ls, HeaderText(section))
    ensures var h := HeaderText(section);
            && ls == a + x + b && Set(ls, section, k, line) == a + [line] + b
            && a == ls[..SetPlace(ls, section, k)] && SetPlace(ls, section, k) <= |ls|
            && Under(a, h) && NoKeyBefore(ls, h, k, |a|)
            && (x == [] ==> NoKeyBefore(ls, h, k, |ls|))
            && (x != [] ==> |x| == 1 && Meaning(x[0]).Entry? && Meaning(x[0]).key == k)
  {
    hide Meaning;
    hide Under;
    hide ScanLines;
    var h := HeaderText(section);
    var s := ScanLines(ls, h, Some(k), |ls|);
    ScanIs(ls, h, Some(k), |ls|);
    assert s.start >= 0;
    if s.keyLine >= 0 {
      a, x, b := ls[..s.keyLine], [ls[s.keyLine]], ls[s.keyLine + 1..];
    } else {
      var at := InsertAt(ls, s.start, s.end);
      UnderMeans(ls, h, s.start, at);
      a, x, b := ls[..at], [], ls[at..];
    }
  }

  /** What set does to a file without the section. */
  lemma SetAppends(ls: Lines, section: Text, k: Text, line: Text)
    requires !Present(ls, HeaderText(section))
    ensures Set(ls, section, k, line) == ls + (if EndsWithText(ls) then [[NEWLINE]] else []) + [HeaderText(section) + [NEWLINE], line]
    ensures NoKeyBefore(ls, HeaderText(section), k, |ls|) && SetPlace(ls, section, k) == |ls|
  {
    hide Meaning;
    hide Under;
    hide ScanLines;
    var h := HeaderText(section);
    ScanIs(ls, h, Some(k), |ls|);
    forall i | 0 <= i < |ls| ensures !KeyAt(ls, h, k, i) { NotUnder(ls, h, i); }
  }

  /** A section that is nowhere is never entered. */
  lemma {:induction false} Absent(ls: Lines, h: Text, k: Text)
    requires forall i :: 0 <= i < |ls| ==> !IsHeader(ls, h, i)
    ensures PlaceAfter(ls, h, Before) == Before && Get(ls, h, k, Before) == None
    decreases |ls|
  {
    hide Meaning;
    if ls != [] {
      assert !IsHeader(ls, h, 0);
      assert Meaning(ls[0]).Header? ==> Meaning(ls[0]) == Header(Meaning(ls[0]).name);
      forall i | 0 <= i < |ls| - 1 ensures !IsHeader(ls[1..], h, i) { assert !IsHeader(ls, h, i + 1); }
      Absent(ls[1..], h, k);
    }
  }

  lemma NewlineMeaning()
    ensures Meaning([NEWLINE]) == Other
  {
    assert [NEWLINE][1..] == [];
    assert TrimLeft([NEWLINE]) == TrimLeft([]);
  }

  /** What follows the file's lines when a section is added. */
  lemma TailReads(blank: bool, section: Text, k: Text, line: Text, h: Text, l: Text, p: Place)
    requires CLOSE !in section && Meaning(line).Entry? && Meaning(line).key == k
    ensures var tail := (if blank then [[NEWLINE]] else []) + [HeaderText(section) + [NEWLINE], line];
            Get(tail, h, l, p) == if h == HeaderText(section) && l == k && p != Past then Some(Meaning(line).value) else None
  {
    var head := HeaderText(section) + [NEWLINE];
    HeaderMeaning(section);
    NewlineMeaning();
    hide Meaning;
    hide Get;
    hide PlaceAfter;
    hide HeaderText;
    var empty: Lines := if blank then [[NEWLINE]] else [];
    var q := PlaceAfter(empty, h, p);
    GetSplit(empty, [head, line], h, l, p);
    if blank {
      One([NEWLINE], h, l, p);
    } else {
      Nothing(h, l, p);
    }
    assert [head, line] == [head] + [line];
    GetSplit([head], [line], h, l, p);
    One(head, h, l, p);
    One(line, h, l, Turn(h, p, head));
  }

  lemma Nothing(h: Text, k: Text, p: Place)
    ensures Get([], h, k, p) == None && PlaceAfter([], h, p) == p
  {
  }

  lemma NoKeyNothingIn(ls: Lines, h: Text, k: Text, n: nat)
    requires n <= |ls| && NoKeyBefore(ls, h, k, n)
    ensures Get(ls[..n], h, k, Before) == None
  {
    hide Meaning;
    hide Under;
    hide Get;
    forall i | 0 <= i < n ensures !KeyAt(ls[..n], h, k, i) {
      assert ls[..n][..i] == ls[..i];
      assert !KeyAt(ls, h, k, i);
    }
    NoKeyNothing(ls[..n], h, k);
  }

  lemma SetThenGetPresent(ls: Lines, section: Text, k: Text, line: Text)
    requires Meaning(line).Entry? && Meaning(line).key == k && Present(ls, HeaderText(section))
    ensures var h, n := HeaderText(section), SetPlace(ls, section, k);
            && n <= |ls|
            && Get(Set(ls, section, k, line), h, k, Before) ==
               if PlaceAfter(ls[..n], h, Before) == Inside then Some(Meaning(line).value) else None
  {
    hide Meaning;
    hide Get;
    hide PlaceAfter;
    hide Under;
    hide Set;
    hide SetPlace;
    hide HeaderText;
    var h := HeaderText(section);
    var a, x, b := SetParts(ls, section, k, line);
    NoKeyNothingIn(ls, h, k, |a|);
    assert a + [line] + b == a + ([line] + b);
    GetSplit(a, [line] + b, h, k, Before);
    GetSplit([line], b, h, k, PlaceAfter(a, h, Before));
    One(line, h, k, PlaceAfter(a, h, Before));
    InsideIsUnder(a, h);
    PastFindsNothing(b, h, k);
  }

  lemma SetThenGetAbsent(ls: Lines, section: Text, k: Text, line: Text)
    requires CLOSE !in section && Meaning(line).Entry? && Meaning(line).key == k && !Present(ls, HeaderText(section))
    ensures Get(Set(ls, section, k, line), HeaderText(section), k, Before) == Some(Meaning(line).value)
  {
    hide Meaning;
    hide Get;
    hide PlaceAfter;
    hide Under;
    hide Set;
    hide HeaderText;
    var h := HeaderText(section);
    var blank := EndsWithText(ls);
    var tail := (if blank then [[NEWLINE]] else []) + [h + [NEWLINE], line];
    SetAppends(ls, section, k, line);
    assert Set(ls, section, k, line) == ls + tail;
    Absent(ls, h, k);
    GetSplit(ls, tail, h, k, Before);
    TailReads(blank, section, k, line, h, k, Before);
  }

  /** Get after set gives the value back exactly when a reader is still inside the section where set
      writes, and nothing otherwise; where the section was missing it always gives it back. */
  lemma SetThenGet(ls: Lines, section: Text, k: Text, v: Text, comment: Text)
    requires CLOSE !in section && GoodKey(k) && GoodValue(v)
    ensures SetPlace(ls, section, k) <= |ls|
    ensures var h, n := HeaderText(section), SetPlace(ls, section, k);
            Get(Set(ls, section, k, EntryText(k, v, comment)), h, k, Before) ==
            if Present(ls, h) && PlaceAfter(ls[..n], h, Before) != Inside then None else Some(v)
  {
    EntryMeaning(k, v, comment);
    hide Meaning;
    hide Get;
    hide PlaceAfter;
    hide Set;
    hide EntryText;
    hide HeaderText;
    if Present(ls, HeaderText(section)) {
      SetThenGetPresent(ls, section, k, EntryText(k, v, comment));
    } else {
      SetThenGetAbsent(ls, section, k, EntryText(k, v, comment));
    }
  }

  /** Set leaves every other lookup as it was, in every file. */
  lemma SetKeepsOthers(ls: Lines, section: Text, k: Text, line: Text, g: Text, l: Text)
    requires CLOSE !in section && Meaning(line).Entry? && Meaning(line).key == k && (g, l) != (HeaderText(section), k)
    ensures Get(Set(ls, section, k, line), g, l, Before) == Get(ls, g, l, Before)
  {
    hide Meaning;
    hide Get;
    hide PlaceAfter;
    hide Under;
    hide Set;
    hide HeaderText;
    var h := HeaderText(section);
    if Present(ls, h) {
      var a, x, b := SetParts(ls, section, k, line);
      OthersKept(a, x, [line], b, h, k, g, l);
    } else {
      var blank := EndsWithText(ls);
      var tail := (if blank then [[NEWLINE]] else []) + [h + [NEWLINE], line];
      SetAppends(ls, section, k, line);
      assert Set(ls, section, k, line) == ls + tail;
      GetSplit(ls, tail, g, l, Before);
      TailReads(blank, section, k, line, g, l, PlaceAfter(ls, g, Before));
    }
  }

  /** The first line for a key is where the scan finds it. */
  lemma KeyLineIs(ls: Lines, section: Text, k: Text, i: nat, line: Text)
    requires i < |ls| && KeyAt(ls, HeaderText(section), k, i) && NoKeyBefore(ls, HeaderText(section), k, i)
    ensures Set(ls, section, k, line) == ls[i := line]
  {
    hide Meaning;
    hide Under;
    hide ScanLines;
    hide KeyAt;
    var h := HeaderText(section);
    ScanIs(ls, h, Some(k), |ls|);
    assert ScanLines(ls, h, Some(k), |ls|).keyLine == i;
  }

  lemma PrefixKeys(a: Lines, b: Lines, c: Lines, h: Text, k: Text)
    requires NoKeyBefore(a + b, h, k, |a|)
    ensures NoKeyBefore(a + c, h, k, |a|)
  {
    hide Meaning;
    hide Under;
    forall i | 0 <= i < |a| ensures !KeyAt(a + c, h, k, i) {
      assert (a + c)[..i] == (a + b)[..i] && (a + c)[i] == (a + b)[i];
      assert !KeyAt(a + b, h, k, i);
    }
  }

  lemma Exchange(a: Lines, line: Text, more: Lines, section: Text, k: Text, line2: Text, b: Lines)
    requires Under(a, HeaderText(section)) && NoKeyBefore(a + b, HeaderText(section), k, |a|)
    requires Meaning(line).Entry? && Meaning(line).key == k
    ensures Set(a + [line] + more, section, k, line2) == a + [line2] + more
  {
    hide Meaning;
    hide Under;
    hide Set;
    hide HeaderText;
    var ls := a + [line] + more;
    assert ls == a + ([line] + more);
    PrefixKeys(a, b, [line] + more, HeaderText(section), k);
    assert ls[..|a|] == a && ls[|a|] == line;
    KeyLineIs(ls, section, k, |a|, line2);
  }

  lemma SetTwicePresent(ls: Lines, section: Text, k: Text, line: Text, line2: Text)
    requires Present(ls, HeaderText(section))
    requires Meaning(line).Entry? && Meaning(line).key == k
    ensures Set(Set(ls, section, k, line), section, k, line2) == Set(ls, section, k, line2)
  {
    hide Meaning;
    hide Under;
    hide Set;
    hide SetPlace;
    hide HeaderText;
    hide Present;
    hide NoKeyBefore;
    var h := HeaderText(section);
    var a, x, b := SetParts(ls, section, k, line);
    var c, y, d := SetParts(ls, section, k, line2);
    SameRest(x, b, y, d, a, h, k, ls);
    assert ls == a + (x + b);
    Exchange(a, line, b, section, k, line2, x + b);
  }

  lemma SetTwiceAbsent(ls: Lines, section: Text, k: Text, line: Text, line2: Text)
    requires CLOSE !in section && !Present(ls, HeaderText(section))
    requires Meaning(line).Entry? && Meaning(line).key == k
    ensures Set(Set(ls, section, k, line), section, k, line2) == Set(ls, section, k, line2)
  {
    hide Meaning;
    hide Under;
    hide Set;
    hide HeaderText;
    hide Present;
    hide NoKeyBefore;
    var h := HeaderText(section);
    SetAppends(ls, section, k, line);
    SetAppends(ls, section, k, line2);
    var a := ls + (if EndsWithText(ls) then [[NEWLINE]] else []) + [h + [NEWLINE]];
    AppendedUnder(ls, section, k, EndsWithText(ls));
    assert Set(ls, section, k, line) == a + [line] + [] && Set(ls, section, k, line2) == a + [line2] + [];
    assert a + [] == a;
    Exchange(a, line, [], section, k, line2, []);
  }

  /** Setting twice is setting once, line for line. */
  lemma SetTwice(ls: Lines, section: Text, k: Text, line: Text, line2: Text)
    requires CLOSE !in section
    requires Meaning(line).Entry? && Meaning(line).key == k
    ensures Set(Set(ls, section, k, line), section, k, line2) == Set(ls, section, k, line2)
  {
    hide Meaning;
    hide Set;
    if Present(ls, HeaderText(section)) {
      SetTwicePresent(ls, section, k, line, line2);
    } else {
      SetTwiceAbsent(ls, section, k, line, line2);
    }
  }

  lemma KeyHere(a: Lines, x: Lines, b: Lines, h: Text, k: Text)
    requires Under(a, h) && x != [] && Meaning(x[0]).Entry? && Meaning(x[0]).key == k
    ensures KeyAt(a + x + b, h, k, |a|) && |a| < |a + x + b|
  {
    hide Meaning;
    hide Under;
    assert (a + x + b)[..|a|] == a && (a + x + b)[|a|] == x[0];
  }

  /** The same place is taken apart in the same way. */
  lemma SameRest(x: Lines, b: Lines, y: Lines, d: Lines, a: Lines, h: Text, k: Text, ls: Lines)
    requires ls == a + x + b && ls == a + y + d && Under(a, h)
    requires x == [] || (|x| == 1 && Meaning(x[0]).Entry? && Meaning(x[0]).key == k)
    requires y == [] || (|y| == 1 && Meaning(y[0]).Entry? && Meaning(y[0]).key == k)
    requires x == [] || y == [] ==> NoKeyBefore(ls, h, k, |ls|)
    ensures b == d
  {
    hide Meaning;
    hide Under;
    hide KeyAt;
    if x != [] { KeyHere(a, x, b, h, k); }
    if y != [] { KeyHere(a, y, d, h, k); }
    assert |x| == |y|;
    assert b == ls[|a| + |x|..] && d == ls[|a| + |y|..];
  }

  lemma AppendedUnder(ls: Lines, section: Text, k: Text, blank: bool)
    requires CLOSE !in section && NoKeyBefore(ls, HeaderText(section), k, |ls|)
    ensures var a := ls + (if blank then [[NEWLINE]] else []) + [HeaderText(section) + [NEWLINE]];
            Under(a, HeaderText(section)) && NoKeyBefore(a, HeaderText(section), k, |a|)
  {
    HeaderMeaning(section);
    NewlineMeaning();
    hide Meaning;
    hide Under;
    hide HeaderText;
    var h := HeaderText(section);
    var e: Lines := (if blank then [[NEWLINE]] else []) + [h + [NEWLINE]];
    var a := ls + (if blank then [[NEWLINE]] else []) + [h + [NEWLINE]];
    assert a == ls + e && a[..|a|] == a;
    UnderAfter(a, h, |a| - 1);
    assert ls + [] == ls;
    PrefixKeys(ls, [], e, h, k);
    assert forall i :: |ls| <= i < |a| ==> !Meaning(a[i]).Entry?;
  }

  // ----- one header only -----

  ghost predicate Unique(ls: Lines, h: Text) {
    forall i, j :: 0 <= i < j < |ls| ==> !(IsHeader(ls, h, i) && IsHeader(ls, h, j))
  }

  /** With one header, whatever is under it is read. */
  lemma {:induction false} UniqueInside(ls: Lines, h: Text)
    requires Unique(ls, h)
    ensures Under(ls, h) ==> PlaceAfter(ls, h, Before) == Inside
    decreases |ls|
  {
    hide Meaning;
    if ls != [] {
      var n := |ls| - 1;
      var a := ls[..n];
      assert ls == a + [ls[n]];
      assert forall i :: 0 <= i < n ==> (IsHeader(a, h, i) <==> IsHeader(ls, h, i));
      UniqueInside(a, h);
      hide PlaceAfter;
      PlaceSplit(a, [ls[n]], h, Before);
      One(ls[n], h, [], PlaceAfter(a, h, Before));
      if IsHeader(ls, h, n) {
        Absent(a, h, []);
      }
    }
  }

  lemma UniquePrefix(ls: Lines, h: Text, n: nat)
    requires Unique(ls, h) && n <= |ls|
    ensures Unique(ls[..n], h)
  {
    hide Meaning;
    assert forall i :: 0 <= i < n ==> (IsHeader(ls[..n], h, i) <==> IsHeader(ls, h, i));
  }

  /** In a file with at most one header of the section, get after set always gives the value. */
  lemma SetThenGetUnique(ls: Lines, section: Text, k: Text, v: Text, comment: Text)
    requires CLOSE !in section && GoodKey(k) && GoodValue(v) && Unique(ls, HeaderText(section))
    ensures Get(Set(ls, section, k, EntryText(k, v, comment)), HeaderText(section), k, Before) == Some(v)
  {
    hide Meaning;
    hide Get;
    hide PlaceAfter;
    hide Under;
    hide Set;
    hide EntryText;
    hide HeaderText;
    hide SetPlace;
    SetThenGet(ls, section, k, v, comment);
    if Present(ls, HeaderText(section)) {
      var a, x, b := SetParts(ls, section, k, EntryText(k, v, comment));
      UniquePrefix(ls, HeaderText(section), |a|);
      UniqueInside(a, HeaderText(section));
    }
  }

  /** With one header, a key is read exactly if there is a line for it. */
  lemma UniqueGet(ls: Lines, h: Text, k: Text)
    requires Unique(ls, h)
    ensures Get(ls, h, k, Before).Some? <==> exists i :: 0 <= i < |ls| && KeyAt(ls, h, k, i)
  {
    hide Meaning;
    hide Under;
    hide Get;
    hide PlaceAfter;
    if i :| 0 <= i < |ls| && KeyAt(ls, h, k, i) {
      var a, b := ls[..i], ls[i + 1..];
      assert ls == a + ([ls[i]] + b);
      UniquePrefix(ls, h, i);
      UniqueInside(a, h);
      GetSplit(a, [ls[i]] + b, h, k, Before);
      GetSplit([ls[i]], b, h, k, Inside);
      One(ls[i], h, k, Inside);
    } else {
      NoKeyNothing(ls, h, k);
    }
  }

  // ----- where set writes, and what get reads -----

  /** A new line of a section goes behind the last line of the section that has text, in front of the
      blank lines after it; if no line has text, behind all of them. */
  lemma SetPlaceIs(ls: Lines, section: Text, k: Text)
    requires Present(ls, HeaderText(section)) && NoKeyBefore(ls, HeaderText(section), k, |ls|)
    ensures var s, n := ScanLines(ls, HeaderText(section), Some(k), |ls|), SetPlace(ls, section, k);
            && 0 <= s.start < n <= s.end <= |ls|
            && (forall i :: n <= i < s.end ==> Blanks(ls[i]))
            && (if exists i :: s.start < i < s.end && !Blanks(ls[i]) then n - 1 > s.start && !Blanks(ls[n - 1]) else n == s.end)
  {
    hide Meaning;
    hide Under;
    hide ScanLines;
    hide Blanks;
    hide IsBlank;
    var h := HeaderText(section);
    var s := ScanLines(ls, h, Some(k), |ls|);
    ScanIs(ls, h, Some(k), |ls|);
    assert s.keyLine < 0;
    LastTextIs(ls, s.start, s.end, s.end);
  }

  lemma {:induction false} LastTextIs(ls: Lines, start: nat, end: nat, i: nat)
    requires start < i <= end <= |ls| && forall j :: i <= j < end ==> Blanks(ls[j])
    ensures var n := LastText(ls, start, end, i);
            && start < n <= end
            && (n < end ==> n - 1 > start && !Blanks(ls[n - 1]))
            && (forall j :: n <= j < end ==> Blanks(ls[j]))
            && ((exists j :: start < j < end && !Blanks(ls[j])) ==> n - 1 > start && !Blanks(ls[n - 1]))
    decreases i
  {
    hide Blanks;
    hide IsBlank;
    BlankIs(ls[i - 1]);
    if i - 1 > start && IsBlank(ls[i - 1]) {
      LastTextIs(ls, start, end, i - 1);
    }
  }

  /** Get finds a line for a key, in a section that it enters there for the first time, in front of any
      other header and any other line for the key. */
  lemma GetReads(a: Lines, head: Text, b: Lines, line: Text, c: Lines, h: Text, k: Text, v: Text)
    requires forall i :: 0 <= i < |a| ==> !IsHeader(a, h, i)
    requires Meaning(head) == Header(h) && Meaning(line) == Entry(k, v)
    requires forall i :: 0 <= i < |b| ==> !Meaning(b[i]).Header? && (Meaning(b[i]).Entry? ==> Meaning(b[i]).key != k)
    ensures Get(a + ([head] + (b + ([line] + c))), h, k, Before) == Some(v)
  {
    hide Meaning;
    hide Get;
    hide PlaceAfter;
    Absent(a, h, k);
    GetSplit(a, [head] + (b + ([line] + c)), h, k, Before);
    GetSplit([head], b + ([line] + c), h, k, Before);
    One(head, h, k, Before);
    Passes(b, h, k);
    GetSplit(b, [line] + c, h, k, Inside);
    GetSplit([line], c, h, k, Inside);
    One(line, h, k, Inside);
  }

  lemma {:induction false} Passes(b: Lines, h: Text, k: Text)
    requires forall i :: 0 <= i < |b| ==> !Meaning(b[i]).Header? && (Meaning(b[i]).Entry? ==> Meaning(b[i]).key != k)
    ensures Get(b, h, k, Inside) == None && PlaceAfter(b, h, Inside) == Inside
    decreases |b|
  {
    hide Meaning;
    if b != [] {
      Passes(b[1..], h, k);
    }
  }

  // ----- the laws of del -----

  lemma DelKeyParts(ls: Lines, section: Text, k: Text) returns (a: Lines, x: Lines, b: Lines)
    requires Del(ls, section, Some(k)).Some?
    ensures var h := HeaderText(section);
            && ls == a + x + b && Del(ls, section, Some(k)) == Some(a + b)
            && Under(a, h) && |x| == 1 && Meaning(x[0]).Entry? && Meaning(x[0]).key == k && NoKeyBefore(ls, h, k, |a|)
    ensures |a| == ScanLines(ls, HeaderText(section), Some(k), |ls|).keyLine
  {
    hide Meaning;
    hide Under;
    hide ScanLines;
    var h := HeaderText(section);
    var s := ScanLines(ls, h, Some(k), |ls|);
    ScanIs(ls, h, Some(k), |ls|);
    a, x, b := ls[..s.keyLine], [ls[s.keyLine]], ls[s.keyLine + 1..];
  }

  /** Deleting a key fails exactly when no line under the section is for it. */
  lemma DelKeyFinds(ls: Lines, section: Text, k: Text)
    ensures Del(ls, section, Some(k)).Some? <==> exists i :: 0 <= i < |ls| && KeyAt(ls, HeaderText(section), k, i)
  {
    hide Meaning;
    hide Under;
    hide ScanLines;
    var h := HeaderText(section);
    ScanIs(ls, h, Some(k), |ls|);
    var s := ScanLines(ls, h, Some(k), |ls|);
    if s.keyLine >= 0 && s.start < 0 {
      NotUnder(ls, h, s.keyLine);
    }
  }

  /** Deleting a key leaves every other lookup as it was, in every file. */
  lemma DelKeyKeepsOthers(ls: Lines, section: Text, k: Text, g: Text, l: Text)
    requires Del(ls, section, Some(k)).Some? && (g, l) != (HeaderText(section), k)
    ensures Get(Del(ls, section, Some(k)).value, g, l, Before) == Get(ls, g, l, Before)
  {
    hide Meaning;
    hide Get;
    hide Under;
    hide Del;
    hide HeaderText;
    var a, x, b := DelKeyParts(ls, section, k);
    OthersKept(a, x, [], b, HeaderText(section), k, g, l);
    assert a + [] + b == a + b;
  }

  /** A line that is no header changes nothing about which lines are under a section. */
  lemma {:induction false} UnderWithout(a: Lines, x: Text, b: Lines, h: Text, i: nat)
    requires i <= |b| && !Meaning(x).Header?
    ensures Under((a + b)[..|a| + i], h) == Under((a + [x] + b)[..|a| + 1 + i], h)
    decreases i
  {
    hide Meaning;
    hide Under;
    var ls, without := a + [x] + b, a + b;
    if i == 0 {
      assert ls[..|a|] == a == without[..|a|] && ls[|a|] == x;
      UnderAfter(ls, h, |a|);
    } else {
      UnderWithout(a, x, b, h, i - 1);
      UnderAfter(ls, h, |a| + i);
      UnderAfter(without, h, |a| + i - 1);
      assert ls[|a| + i] == without[|a| + i - 1] == b[i - 1];
    }
  }

  lemma KeyWithout(a: Lines, x: Text, b: Lines, h: Text, k: Text, i: nat)
    requires i < |a + b| && !Meaning(x).Header?
    ensures |a + [x] + b| == |a + b| + 1
    ensures KeyAt(a + b, h, k, i) == KeyAt(a + [x] + b, h, k, if i < |a| then i else i + 1)
    ensures IsHeader(a + b, h, i) == IsHeader(a + [x] + b, h, if i < |a| then i else i + 1)
  {
    hide Meaning;
    hide Under;
    var ls, without := a + [x] + b, a + b;
    if i < |a| {
      assert ls[..i] == without[..i];
    } else {
      UnderWithout(a, x, b, h, i - |a|);
    }
  }

  /** What get gives for a key after it was deleted, in every file: if a reader is inside the section
      where the deleted line was, what it finds behind that line, and otherwise nothing. */
  lemma DelThenRead(ls: Lines, section: Text, k: Text)
    requires Del(ls, section, Some(k)).Some?
    ensures var h, i := HeaderText(section), ScanLines(ls, HeaderText(section), Some(k), |ls|).keyLine;
            && 0 <= i < |ls|
            && Get(Del(ls, section, Some(k)).value, h, k, Before) ==
               if PlaceAfter(ls[..i], h, Before) == Inside then Get(ls[i + 1..], h, k, Inside) else None
  {
    hide Meaning;
    hide Get;
    hide PlaceAfter;
    hide Under;
    hide Del;
    hide HeaderText;
    hide ScanLines;
    var h := HeaderText(section);
    var a, x, b := DelKeyParts(ls, section, k);
    assert ls[..|a|] == a && ls[|a| + 1..] == b;
    forall i | 0 <= i < |a| ensures !KeyAt(a, h, k, i) {
      assert a[..i] == ls[..i] && a[i] == ls[i];
      assert !KeyAt(ls, h, k, i);
    }
    NoKeyNothing(a, h, k);
    InsideIsUnder(a, h);
    GetSplit(a, b, h, k, Before);
    PastFindsNothing(b, h, k);
  }

  /** A deleted key is gone exactly if its section had one line for it, in a file with one header of
      the section. */
  lemma DelThenGet(ls: Lines, section: Text, k: Text)
    requires Unique(ls, HeaderText(section)) && Del(ls, section, Some(k)).Some?
    ensures var h := HeaderText(section);
            Get(Del(ls, section, Some(k)).value, h, k, Before) == None <==>
            forall i, j :: 0 <= i < j < |ls| && KeyAt(ls, h, k, i) ==> !KeyAt(ls, h, k, j)
  {
    hide Meaning;
    hide Get;
    hide Under;
    hide Del;
    hide HeaderText;
    hide KeyAt;
    hide IsHeader;
    var h := HeaderText(section);
    var a, x, b := DelKeyParts(ls, section, k);
    assert x == [x[0]];
    var n := |a|;
    KeyHere(a, x, b, h, k);
    forall i | 0 <= i < |a + b|
      ensures KeyAt(a + b, h, k, i) == KeyAt(ls, h, k, if i < n then i else i + 1)
      ensures IsHeader(a + b, h, i) == IsHeader(ls, h, if i < n then i else i + 1)
    {
      KeyWithout(a, x[0], b, h, k, i);
    }
    UniqueGet(a + b, h, k);
    if j :| n < j < |ls| && KeyAt(ls, h, k, j) {
      assert KeyAt(a + b, h, k, j - 1);
    }
  }

  lemma DelSectionParts(ls: Lines, section: Text) returns (a: Lines, m: Lines, b: Lines)
    requires Del(ls, section, None).Some?
    ensures var h := HeaderText(section);
            && ls == a + m + b && Del(ls, section, None) == Some(a + b) && m != [] && IsHeader(m, h, 0)
            && (forall i :: 0 < i < |m| ==> !Meaning(m[i]).Header?)
            && (b != [] ==> Meaning(b[0]).Header?) && (forall i :: 0 <= i < |b| ==> !IsHeader(b, h, i))
    ensures var s := ScanLines(ls, HeaderText(section), None, |ls|);
            0 <= s.start <= s.end <= |ls| && a == ls[..s.start] && m == ls[s.start..s.end] && b == ls[s.end..]
  {
    hide Meaning;
    hide Under;
    hide ScanLines;
    var h := HeaderText(section);
    var s := ScanLines(ls, h, None, |ls|);
    ScanIs(ls, h, None, |ls|);
    a, m, b := ls[..s.start], ls[s.start..s.end], ls[s.end..];
    assert m[0] == ls[s.start] && IsHeader(ls, h, s.start);
    assert b != [] ==> b[0] == ls[s.end];
    forall i | 0 < i < |m| ensures !Meaning(m[i]).Header? { assert m[i] == ls[s.start + i]; }
    forall i | 0 <= i < |b| ensures !IsHeader(b, h, i) { assert b[i] == ls[s.end + i] && !IsHeader(ls, h, s.end + i); }
  }

  /** Deleting a section fails exactly when the file has no header of it. */
  lemma DelSectionFinds(ls: Lines, section: Text)
    ensures Del(ls, section, None).Some? <==> Present(ls, HeaderText(section))
  {
    hide Meaning;
    hide Under;
    hide ScanLines;
    ScanIs(ls, HeaderText(section), None, |ls|);
  }

  /** What get gives for a key of a section after the section was deleted, in every file: what the lines
      before the section's last header give. */
  lemma DelSectionThenRead(ls: Lines, section: Text, k: Text)
    requires Del(ls, section, None).Some?
    ensures var h, s := HeaderText(section), ScanLines(ls, HeaderText(section), None, |ls|);
            && 0 <= s.start <= |ls|
            && Get(Del(ls, section, None).value, h, k, Before) == Get(ls[..s.start], h, k, Before)
  {
    hide Meaning;
    hide Get;
    hide PlaceAfter;
    hide Del;
    hide HeaderText;
    hide ScanLines;
    var h := HeaderText(section);
    var a, m, b := DelSectionParts(ls, section);
    GetSplit(a, b, h, k, Before);
    Absent(b, h, k);
    NextSection(b, h, k);
    PastFindsNothing(b, h, k);
    var p := PlaceAfter(a, h, Before);
    assert p == Before || p == Inside || p == Past;
  }

  /** A deleted section is gone with all its keys, in a file with one header of it. */
  lemma DelSectionThenGet(ls: Lines, section: Text, k: Text)
    requires Unique(ls, HeaderText(section)) && Del(ls, section, None).Some?
    ensures Get(Del(ls, section, None).value, HeaderText(section), k, Before) == None
  {
    hide Meaning;
    hide Get;
    hide PlaceAfter;
    hide Del;
    hide HeaderText;
    hide ScanLines;
    var h := HeaderText(section);
    var a, m, b := DelSectionParts(ls, section);
    DelSectionThenRead(ls, section, k);
    forall i | 0 <= i < |a| ensures !IsHeader(a, h, i) {
      assert ls[|a|] == m[0] && IsHeader(ls, h, |a|) && ls[i] == a[i];
      assert !IsHeader(ls, h, i);
    }
    Absent(a, h, k);
  }

  /** A section that is not the reader's: it finds nothing there, and is past its own afterwards. */
  lemma {:induction false} OtherSection(m: Lines, h: Text, g: Text, l: Text, p: Place)
    requires m != [] && IsHeader(m, h, 0) && g != h && forall i :: 0 < i < |m| ==> !Meaning(m[i]).Header?
    ensures Get(m, g, l, p) == None && PlaceAfter(m, g, p) == if p == Inside then Past else p
    decreases |m|
  {
    hide Meaning;
    var n := |m| - 1;
    if n == 0 {
      assert m == [m[0]];
      One(m[0], g, l, p);
    } else {
      var a := m[..n];
      assert m == a + [m[n]] && IsHeader(a, h, 0);
      OtherSection(a, h, g, l, p);
      hide Get;
      hide PlaceAfter;
      GetSplit(a, [m[n]], g, l, p);
      PlaceSplit(a, [m[n]], g, p);
      One(m[n], g, l, PlaceAfter(a, g, p));
    }
  }

  /** Taking out the lines between `a` and `b` brings a key of another section to light: a reader is
      inside that section behind `a` without having found the key, and `b` goes on with the same
      section, where the key is. */
  ghost predicate Reveals(a: Lines, b: Lines, g: Text, l: Text) {
    && PlaceAfter(a, g, Before) == Inside && Get(a, g, l, Before) == None
    && b != [] && IsHeader(b, g, 0) && Get(b, g, l, Inside).Some?
  }

  /** Deleting a section changes a lookup in another section exactly if it brings the key to light; then
      nothing was found before and the key of the lines behind is found afterwards. For every file. */
  lemma DelSectionChanges(ls: Lines, section: Text, g: Text, l: Text)
    requires Del(ls, section, None).Some? && g != HeaderText(section)
    ensures var s := ScanLines(ls, HeaderText(section), None, |ls|);
            && 0 <= s.start <= s.end <= |ls|
            && var a, b := ls[..s.start], ls[s.end..];
            var before, after := Get(ls, g, l, Before), Get(Del(ls, section, None).value, g, l, Before);
            && (after != before <==> Reveals(a, b, g, l))
            && (after != before ==> before == None && after == Get(b, g, l, Inside))
  {
    hide Meaning;
    hide Get;
    hide PlaceAfter;
    hide Del;
    hide HeaderText;
    hide ScanLines;
    var a, m, b := DelSectionParts(ls, section);
    assert ls == a + (m + b);
    var p := PlaceAfter(a, g, Before);
    GetSplit(a, m + b, g, l, Before);
    GetSplit(m, b, g, l, p);
    GetSplit(a, b, g, l, Before);
    OtherSection(m, HeaderText(section), g, l, p);
    PastFindsNothing(b, g, l);
    if b == [] || !IsHeader(b, g, 0) {
      NextSection(b, g, l);
    }
  }

  /** In particular, it changes nothing unless that other section has headers both before and after the
      deleted one. */
  lemma DelSectionKeepsOthers(ls: Lines, section: Text, g: Text, l: Text)
    requires Del(ls, section, None).Some? && g != HeaderText(section)
    requires var s := ScanLines(ls, HeaderText(section), None, |ls|);
             && 0 <= s.start <= s.end <= |ls|
             && (!Present(ls[..s.start], g) || !Present(ls[s.end..], g))
    ensures Get(Del(ls, section, None).value, g, l, Before) == Get(ls, g, l, Before)
  {
    hide Meaning;
    hide Get;
    hide PlaceAfter;
    hide Del;
    hide HeaderText;
    hide ScanLines;
    var s := ScanLines(ls, HeaderText(section), None, |ls|);
    DelSectionChanges(ls, section, g, l);
    if !Present(ls[..s.start], g) {
      Absent(ls[..s.start], g, l);
    }
  }

  /** A reader inside its section finds nothing where another section begins. */
  lemma NextSection(b: Lines, g: Text, l: Text)
    requires b != [] ==> Meaning(b[0]).Header? && !IsHeader(b, g, 0)
    ensures Get(b, g, l, Inside) == None
  {
    hide Meaning;
    if b != [] {
      assert Meaning(b[0]) == Header(Meaning(b[0]).name);
      PastFindsNothing(b[1..], g, l);
    }
  }

  // ----- where the laws end -----

  lemma HeaderLine(c: Byte)
    requires c != CLOSE
    ensures Meaning(HeaderText([c]) + [NEWLINE]) == Header(HeaderText([c])) && HeaderText([c])[1] == c
  {
    HeaderMeaning([c]);
  }

  /** Two headers of one section with another section between them: set writes under the last one, where
      get does not come. */
  lemma SetMayNotBeRead(k: Text, v: Text)
    requires GoodKey(k) && GoodValue(v)
    ensures var a, b := HeaderText([97]) + [NEWLINE], HeaderText([98]) + [NEWLINE];
            Get(Set([a, b, a], [97], k, EntryText(k, v, [])), HeaderText([97]), k, Before) == None
  {
    var h, a, b := HeaderText([97]), HeaderText([97]) + [NEWLINE], HeaderText([98]) + [NEWLINE];
    HeaderLine(97);
    HeaderLine(98);
    var ls := [a, b, a];
    hide Meaning;
    hide HeaderText;
    hide Under;
    hide Set;
    SetThenGet(ls, [97], k, v, []);
    ScanIs(ls, h, Some(k), 3);
    hide ScanLines;
    assert IsHeader(ls, h, 2);
    assert SetPlace(ls, [97], k) == 3;
    assert ls[..3] == ls;
    assert ls[1..] == [b, a] && ls[1..][1..] == [a];
    assert PlaceAfter(ls, h, Before) == PlaceAfter([b, a], h, Inside) == PlaceAfter([a], h, Past) == Past;
  }

  /** Between two headers of one section, another section ends what a reader of the first one sees. */
  lemma BetweenHeaders(a: Text, b: Text, e: Text, h: Text, k: Text, v: Text)
    requires Meaning(a) == Header(h) && Meaning(b).Header? && Meaning(b).name != h && Meaning(e) == Entry(k, v)
    ensures Get([a, b, a, e], h, k, Before) == None && Get([a, a, e], h, k, Before) == Some(v)
  {
    hide Meaning;
    PastFindsNothing([a, e], h, k);
    assert [a, b, a, e][1..] == [b, a, e] && [b, a, e][1..] == [a, e];
    assert [a, a, e][1..] == [a, e] && [a, e][1..] == [e];
    assert Get([b, a, e], h, k, Inside) == Get([a, e], h, k, Past);
    assert Get([a, e], h, k, Inside) == Get([e], h, k, Inside) == Some(v);
  }

  lemma BetweenDeleted(a: Text, b: Text, e: Text, section: Text)
    requires Meaning(a).Header? && Meaning(a).name != HeaderText(section)
    requires Meaning(b) == Header(HeaderText(section)) && Meaning(e).Entry?
    ensures Del([a, b, a, e], section, None) == Some([a, a, e])
  {
    hide Meaning;
    hide HeaderText;
    hide Under;
    var ls, g := [a, b, a, e], HeaderText(section);
    ScanIs(ls, g, None, 4);
    hide ScanLines;
    assert IsHeader(ls, g, 1) && !IsHeader(ls, g, 2) && !IsHeader(ls, g, 0) && !IsHeader(ls, g, 3);
    var s := ScanLines(ls, g, None, 4);
    assert s.start == 1 && s.end == 2;
    assert ls[..1] + ls[2..] == [a, a, e];
  }

  /** Deleting the section between two headers of another one brings keys to light. */
  lemma DelMayReveal(k: Text, v: Text)
    requires GoodKey(k) && GoodValue(v)
    ensures var a, b, h := HeaderText([97]) + [NEWLINE], HeaderText([98]) + [NEWLINE], HeaderText([97]);
            var ls := [a, b, a, EntryText(k, v, [])];
            && Get(ls, h, k, Before) == None
            && Del(ls, [98], None).Some? && Get(Del(ls, [98], None).value, h, k, Before) == Some(v)
  {
    var a, b, h := HeaderText([97]) + [NEWLINE], HeaderText([98]) + [NEWLINE], HeaderText([97]);
    var e := EntryText(k, v, []);
    HeaderLine(97);
    HeaderLine(98);
    EntryMeaning(k, v, []);
    hide *;
    BetweenHeaders(a, b, e, h, k, v);
    BetweenDeleted(a, b, e, [98]);
  }

  /** Two lines for a key: after the first one is deleted, get gives the second one's value. */
  lemma DelMayLeaveKey(k: Text, v: Text, w: Text)
    requires GoodKey(k) && GoodValue(v) && GoodValue(w)
    ensures var a, h := HeaderText([97]) + [NEWLINE], HeaderText([97]);
            var ls := [a, EntryText(k, v, []), EntryText(k, w, [])];
            Del(ls, [97], Some(k)).Some? && Get(Del(ls, [97], Some(k)).value, h, k, Before) == Some(w)
  {
    var a, h := HeaderText([97]) + [NEWLINE], HeaderText([97]);
    var e, f := EntryText(k, v, []), EntryText(k, w, []);
    HeaderLine(97);
    EntryMeaning(k, v, []);
    EntryMeaning(k, w, []);
    hide *;
    TwoLines(a, e, f, [97], k, w);
  }

  lemma TwoLines(a: Text, e: Text, f: Text, section: Text, k: Text, w: Text)
    requires Meaning(a) == Header(HeaderText(section)) && Meaning(f) == Entry(k, w)
    requires Meaning(e).Entry? && Meaning(e).key == k
    ensures var ls := [a, e, f];
            Del(ls, section, Some(k)).Some? && Get(Del(ls, section, Some(k)).value, HeaderText(section), k, Before) == Some(w)
  {
    hide Meaning;
    hide HeaderText;
    var ls, h := [a, e, f], HeaderText(section);
    assert ls[..1] == [a] && Under([a], h);
    DelKeyFinds(ls, section, k);
    assert KeyAt(ls, h, k, 1);
    DelThenRead(ls, section, k);
    var i := ScanLines(ls, h, Some(k), 3).keyLine;
    ScanIs(ls, h, Some(k), 3);
    hide Del;
    hide ScanLines;
    assert i == 1 by { assert ls[..0] == [] && !KeyAt(ls, h, k, 0); }
    assert ls[2..] == [f];
    One(a, h, k, Before);
    One(f, h, k, Inside);
  }

  /** Two headers of a section: after the last one is deleted, get still finds the keys under the first. */
  lemma DelMayLeaveSection(k: Text, v: Text)
    requires GoodKey(k) && GoodValue(v)
    ensures var a, h := HeaderText([97]) + [NEWLINE], HeaderText([97]);
            var ls := [a, EntryText(k, v, []), a];
            Del(ls, [97], None).Some? && Get(Del(ls, [97], None).value, h, k, Before) == Some(v)
  {
    var a, h := HeaderText([97]) + [NEWLINE], HeaderText([97]);
    var e := EntryText(k, v, []);
    HeaderLine(97);
    EntryMeaning(k, v, []);
    hide *;
    TwoHeaders(a, e, [97], k, v);
  }

  lemma TwoHeaders(a: Text, e: Text, section: Text, k: Text, v: Text)
    requires Meaning(a) == Header(HeaderText(section)) && Meaning(e) == Entry(k, v)
    ensures var ls := [a, e, a];
            Del(ls, section, None).Some? && Get(Del(ls, section, None).value, HeaderText(section), k, Before) == Some(v)
  {
    hide Meaning;
    hide HeaderText;
    hide Under;
    var ls, h := [a, e, a], HeaderText(section);
    DelSectionFinds(ls, section);
    assert IsHeader(ls, h, 2);
    DelSectionThenRead(ls, section, k);
    ScanIs(ls, h, None, 3);
    hide Del;
    hide ScanLines;
    assert ls[..2] == [a, e] && [a, e][1..] == [e];
  }
}
