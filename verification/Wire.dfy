// Messages of the PostgreSQL protocol as message.c and utils.c read them: a type byte, a 32-bit length
// that counts itself, and a body.

module Wire {
  import opened Bytes

  type Octets = seq<Byte>

  /** A 32-bit integer in network order. */
  function Int32(n: nat): (r: Octets)
    ensures |r| == 4
  {
    [n / 0x100_0000 % 256, n / 0x1_0000 % 256, n / 0x100 % 256, n % 256]
  }

  /** A 32-bit integer in network order, read. */
  function ReadInt32(s: Octets, off: nat): nat
    requires off + 4 <= |s|
  {
    s[off] as int * 0x100_0000 + s[off + 1] as int * 0x1_0000 + s[off + 2] as int * 0x100 + s[off + 3]
  }

  /** An integer that fits is read as it was written; otherwise its lowest 32 bits are. */
  lemma ReadWritten(n: nat)
    ensures ReadInt32(Int32(n), 0) == n % 0x1_0000_0000
  {
    Modulo(n / 0x100_0000, 256);
    Modulo(n / 0x1_0000, 256);
    Modulo(n / 0x100, 256);
    Modulo(n, 256);
    Modulo(n, 0x1_0000_0000);
    assert n / 0x100 / 256 == n / 0x1_0000 && n / 0x1_0000 / 256 == n / 0x100_0000;
    assert n / 0x100_0000 / 256 == n / 0x1_0000_0000;
  }

  lemma Modulo(n: nat, d: nat)
    requires d > 0
    ensures n == n / d * d + n % d && n % d < d
  {
  }

  /** `pgvictoria_read_int32`: the integer is signed. */
  function ReadSigned(s: Octets, off: nat): int
    requires off + 4 <= |s|
  {
    var n := ReadInt32(s, off);
    if n < 0x8000_0000 then n else n - 0x1_0000_0000
  }

  lemma ReadAt(s: Octets, off: nat, n: nat)
    requires off + 4 <= |s| && s[off..off + 4] == Int32(n)
    ensures ReadInt32(s, off) == n % 0x1_0000_0000
    ensures n < 0x8000_0000 ==> ReadSigned(s, off) == n
  {
    ReadWritten(n);
    hide Int32;
    assert s[off] == s[off..off + 4][0] && s[off + 1] == s[off..off + 4][1];
    assert s[off + 2] == s[off..off + 4][2] && s[off + 3] == s[off..off + 4][3];
  }

  // ----- sequences of messages -----

  datatype Message = Message(kind: Byte, body: Octets)

  predicate Fits(m: Message) {
    |m.body| + 4 < 0x8000_0000
  }

  function Encode(m: Message): (r: Octets)
    ensures |r| == 5 + |m.body|
  {
    [m.kind] + Int32(4 + |m.body|) + m.body
  }

  function EncodeAll(ms: seq<Message>): Octets {
    if ms == [] then [] else Encode(ms[0]) + EncodeAll(ms[1..])
  }

  function FirstOf(ms: seq<Message>, kind: Byte): Option<Message> {
    if ms == [] then None else if ms[0].kind == kind then Some(ms[0]) else FirstOf(ms[1..], kind)
  }

  lemma Slices(data: Octets, off: nat, a: Octets, b: Octets)
    requires off <= |data| && data[off..] == a + b
    ensures off + |a| <= |data| && data[off..off + |a|] == a && data[off + |a|..] == b
  {
    assert data[off..][..|a|] == a && data[off..][|a|..] == b;
    assert data[off..off + |a|] == data[off..][..|a|];
  }

  /** Where a message begins, what the reader finds there. */
  lemma Header(data: Octets, off: nat, ms: seq<Message>)
    requires ms != [] && off <= |data| && data[off..] == EncodeAll(ms) && Fits(ms[0])
    ensures off + 5 + |ms[0].body| <= |data| && data[off] == ms[0].kind
    ensures ReadSigned(data, off + 1) == 4 + |ms[0].body|
    ensures data[off..off + 5 + |ms[0].body|] == Encode(ms[0])
    ensures data[off + 5 + |ms[0].body|..] == EncodeAll(ms[1..])
  {
    hide Int32;
    hide ReadSigned;
    var m, rest := ms[0], EncodeAll(ms[1..]);
    Slices(data, off, Encode(m), rest);
    assert Encode(m) + rest == [m.kind] + (Int32(4 + |m.body|) + (m.body + rest));
    hide EncodeAll;
    hide Encode;
    Slices(data, off, [m.kind], Int32(4 + |m.body|) + (m.body + rest));
    Slices(data, off + 1, Int32(4 + |m.body|), m.body + rest);
    assert data[off] == data[off..off + 1][0];
    ReadAt(data, off + 1, 4 + |m.body|);
  }

  lemma NoHeader(data: Octets, off: nat, ms: seq<Message>)
    requires off <= |data| && data[off..] == EncodeAll(ms)
    ensures off == |data| <==> ms == []
  {
    hide Int32;
  }

  /** `pgvictoria_extract_message`: the first message of a type. No byte outside the data is read. */
  method Extract(kind: Byte, data: Octets, ghost ms: seq<Message>) returns (r: Option<Octets>)
    requires data == EncodeAll(ms) && forall i :: 0 <= i < |ms| ==> Fits(ms[i])
    ensures r == (match FirstOf(ms, kind) case None => None case Some(m) => Some(Encode(m)))
  {
    hide EncodeAll;
    hide Encode;
    hide ReadSigned;
    var offset := 0;
    ghost var k := 0;
    assert data[0..] == data && ms[0..] == ms;
    NoHeader(data, 0, ms);
    while offset < |data|
      invariant k <= |ms| && offset <= |data| && data[offset..] == EncodeAll(ms[k..])
      invariant FirstOf(ms[k..], kind) == FirstOf(ms, kind)
      invariant offset == |data| <==> k == |ms|
      decreases |data| - offset
    {
      Header(data, offset, ms[k..]);
      assert ms[k..][1..] == ms[k + 1..];
      var length := ReadSigned(data, offset + 1);
      if data[offset] == kind {
        return Some(data[offset..offset + 1 + length]);
      }
      offset := offset + 1 + length;
      k := k + 1;
      NoHeader(data, offset, ms[k..]);
    }
    return None;
  }

  /** `pgvictoria_has_message` */
  method HasMessage(kind: Byte, data: Octets, ghost ms: seq<Message>) returns (found: bool)
    requires data == EncodeAll(ms) && forall i :: 0 <= i < |ms| ==> Fits(ms[i])
    ensures found <==> exists i :: 0 <= i < |ms| && ms[i].kind == kind
  {
    hide EncodeAll;
    hide Encode;
    hide ReadSigned;
    var offset := 0;
    ghost var k := 0;
    assert data[0..] == data && ms[0..] == ms;
    NoHeader(data, 0, ms);
    while offset < |data|
      invariant k <= |ms| && offset <= |data| && data[offset..] == EncodeAll(ms[k..])
      invariant forall i :: 0 <= i < k ==> ms[i].kind != kind
      invariant offset == |data| <==> k == |ms|
      decreases |data| - offset
    {
      Header(data, offset, ms[k..]);
      assert ms[k..][1..] == ms[k + 1..];
      if data[offset] == kind {
        assert ms[k].kind == kind;
        return true;
      }
      offset := offset + 1;
      offset := offset + ReadSigned(data, offset);
      k := k + 1;
      NoHeader(data, offset, ms[k..]);
    }
    return false;
  }

  // ----- rows -----

  /** The value of a column as it stands in a DataRow: -1 for NULL. */
  function EncodeValue(v: Option<Octets>): Octets {
    match v
    case None => [255, 255, 255, 255]
    case Some(s) => Int32(|s|) + s
  }

  function EncodeValues(vs: seq<Option<Octets>>): Octets {
    if vs == [] then [] else EncodeValue(vs[0]) + EncodeValues(vs[1..])
  }

  predicate ValueFits(v: Option<Octets>) {
    v.Some? ==> |v.value| < 0x8000_0000
  }

  /** What a tuple keeps of a column: an empty value is not told from NULL. */
  function Kept(v: Option<Octets>): Option<Octets> {
    if v == Some([]) then None else v
  }

  lemma ValueHeader(data: Octets, off: nat, v: Option<Octets>, rest: Octets)
    requires off <= |data| && data[off..] == EncodeValue(v) + rest && ValueFits(v)
    ensures off + 4 <= |data|
    ensures var n := ReadSigned(data, off);
            match Kept(v)
            case None => n <= 0 && data[off + 4..] == rest
            case Some(s) =>
              n == |s| && n > 0 && off + 4 + n <= |data| && data[off + 4..off + 4 + n] == s && data[off + 4 + n..] == rest
  {
    hide Int32;
    match v
    case Some(s) =>
      hide ReadSigned;
      assert EncodeValue(v) + rest == Int32(|s|) + (s + rest);
      Slices(data, off, Int32(|s|), s + rest);
      Slices(data, off + 4, s, rest);
      ReadAt(data, off, |s|);
      assert [] + rest == rest;
    case None =>
      Slices(data, off, EncodeValue(v), rest);
      MinusOne(data, off);
  }

  lemma MinusOne(data: Octets, off: nat)
    requires off + 4 <= |data| && data[off..off + 4] == [255, 255, 255, 255]
    ensures ReadSigned(data, off) == -1
  {
    assert data[off] == data[off..off + 4][0] && data[off + 1] == data[off..off + 4][1];
    assert data[off + 2] == data[off..off + 4][2] && data[off + 3] == data[off..off + 4][3];
  }

  lemma ValuesStep(vs: seq<Option<Octets>>, i: nat)
    requires i < |vs|
    ensures EncodeValues(vs[i..]) == EncodeValue(vs[i]) + EncodeValues(vs[i + 1..])
  {
    hide EncodeValue;
    assert vs[i..][1..] == vs[i + 1..];
  }

  /** `create_D_tuple`: reads the columns of a DataRow, whose first value is at offset 7. */
  method CreateTuple(numberOfColumns: nat, data: Octets, ghost vs: seq<Option<Octets>>) returns (tuple: array<Option<Octets>>)
    requires numberOfColumns == |vs| && |data| >= 7 && data[7..] == EncodeValues(vs)
    requires forall i :: 0 <= i < |vs| ==> ValueFits(vs[i])
    ensures fresh(tuple) && tuple.Length == |vs| && forall i :: 0 <= i < |vs| ==> tuple[i] == Kept(vs[i])
  {
    hide EncodeValues;
    hide EncodeValue;
    hide ReadSigned;
    tuple := new Option<Octets>[numberOfColumns](_ => None);
    var offset := 7;
    assert vs[0..] == vs;
    for i := 0 to numberOfColumns
      invariant offset <= |data| && data[offset..] == EncodeValues(vs[i..])
      invariant forall k :: 0 <= k < i ==> tuple[k] == Kept(vs[k])
    {
      ValuesStep(vs, i);
      ValueHeader(data, offset, vs[i], EncodeValues(vs[i + 1..]));
      var length := ReadSigned(data, offset);
      offset := offset + 4;
      if length > 0 {
        tuple[i] := Some(data[offset..offset + length]);
        offset := offset + length;
      } else {
        tuple[i] := None;
      }
    }
  }

  // ----- columns -----

  /** A field of a RowDescription: the name as a C string and eighteen bytes about the column. */
  datatype Column = Column(name: Octets, about: Octets)

  predicate GoodColumn(c: Column) {
    IsCString(c.name) && |c.about| == 18
  }

  function EncodeColumns(cs: seq<Column>): Octets {
    if cs == [] then [] else cs[0].name + [0] + cs[0].about + EncodeColumns(cs[1..])
  }

  predicate NotZero(c: Byte) { c != 0 }

  /** `pgvictoria_read_string`: the C string at an offset. */
  function StringAt(data: Octets, off: nat): Octets
    requires off <= |data|
  {
    TakeWhile(data[off..], NotZero)
  }

  lemma ColumnsStep(cs: seq<Column>)
    requires cs != []
    ensures EncodeColumns(cs) == cs[0].name + ([0] + cs[0].about + EncodeColumns(cs[1..]))
  {
    var name, about, more := cs[0].name, cs[0].about, EncodeColumns(cs[1..]);
    Assoc(name + [0], about, more);
    Assoc(name, [0], about + more);
    Assoc([0], about, more);
  }

  lemma ColumnAt(data: Octets, off: nat, cs: seq<Column>)
    requires cs != [] && off <= |data| && data[off..] == EncodeColumns(cs) && GoodColumn(cs[0])
    ensures StringAt(data, off) == cs[0].name
    ensures off + |cs[0].name| + 19 <= |data| && data[off + |cs[0].name| + 19..] == EncodeColumns(cs[1..])
  {
    hide EncodeColumns;
    hide TakeWhile;
    var name, tail, more := cs[0].name, [0] + cs[0].about, EncodeColumns(cs[1..]);
    ColumnsStep(cs);
    assert |tail| == 19 && (tail + more)[0] == 0;
    RunEnds(name, tail + more, NotZero);
    Slices(data, off, name, tail + more);
    Slices(data, off + |name|, tail, more);
  }

  /** The number of fields that a RowDescription gives. */
  function FieldCount(data: Octets): nat
    requires |data| >= 7
  {
    data[5] as int * 0x100 + data[6] as int
  }

  /** `pgvictoria_read_int16` reads a number in network order. */
  lemma FieldCountReads(data: Octets, n: nat)
    requires |data| >= 7 && n < 0x1_0000 && data[5..7] == [n / 256, n % 256]
    ensures FieldCount(data) == n
  {
    assert data[5] == data[5..7][0] && data[6] == data[5..7][1];
  }

  /** A message that is a RowDescription ('T') of these columns, if it is one at all. */
  ghost predicate Describes(kind: Byte, data: Octets, cs: seq<Column>) {
    kind == 84 ==>
      && |data| >= 7 && |cs| < 0x8000 && data[5..7] == [|cs| / 256, |cs| % 256] && data[7..] == EncodeColumns(cs)
      && forall i :: 0 <= i < |cs| ==> GoodColumn(cs[i])
  }

  /** `get_number_of_columns`: 0 for other messages. */
  method NumberOfColumns(kind: Byte, data: Octets, ghost cs: seq<Column>) returns (n: nat)
    requires Describes(kind, data, cs)
    ensures n == if kind == 84 then |cs| else 0
  {
    if kind == 84 {
      FieldCountReads(data, |cs|);
      return FieldCount(data);
    }
    return 0;
  }

  /** `get_column_name`: the name of a column, none for the empty name; an error past the columns and
      for messages that are no RowDescription. */
  method ColumnName(kind: Byte, data: Octets, index: nat, ghost cs: seq<Column>) returns (ok: bool, name: Option<Octets>)
    requires Describes(kind, data, cs)
    ensures ok <==> kind == 84 && index < |cs|
    ensures ok ==> name == if cs[index].name == [] then None else Some(cs[index].name)
    ensures !ok ==> name == None
  {
    hide EncodeColumns;
    hide StringAt;
    name := None;
    if kind == 84 {
      FieldCountReads(data, |cs|);
    }
    if kind != 84 || index >= FieldCount(data) {
      return false, None;
    }
    var current, offset := 0, 7;
    assert cs[0..] == cs;
    while current < index
      invariant current <= index && 7 <= offset <= |data| && data[offset..] == EncodeColumns(cs[current..])
    {
      ColumnAt(data, offset, cs[current..]);
      assert cs[current..][1..] == cs[current + 1..];
      var tmp := StringAt(data, offset);
      offset := offset + |tmp| + 1;
      offset := offset + 4;
      offset := offset + 2;
      offset := offset + 4;
      offset := offset + 2;
      offset := offset + 4;
      offset := offset + 2;
      current := current + 1;
    }
    ColumnAt(data, offset, cs[current..]);
    var tmp := StringAt(data, offset);
    ok := true;
    name := CopyText(tmp);
  }
}
