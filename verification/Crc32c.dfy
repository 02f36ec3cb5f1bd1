// CRC32C (security.c). The reference is the shift register of the reflected polynomial, one message
// bit at a time; the table loop and the instruction loop compute the same for every buffer and start
// value. The operations on words are functions of their own so that proofs can go by their laws.

module Crc32c {

  type Octet = bv8

  /** The generator without its leading term, lowest bit first: 0x1EDC6F41 reflected. */
  const POLY: bv32 := 0x82F63B78

  function Xor(a: bv32, b: bv32): bv32 { a ^ b }

  function Half(a: bv32): bv32 { a >> 1 }

  function Bit(a: bv32): bool { a & 1 == 1 }

  function By4(x: bv32): bv32 { x >> 4 }

  function By8(x: bv32): bv32 { x >> 8 }

  // ----- the reference -----

  /** One bit of the message enters the register. */
  function Feed(c: bv32, bit: bool): bv32 {
    if Bit(c) != bit then Xor(Half(c), POLY) else Half(c)
  }

  function FeedAll(c: bv32, bits: seq<bool>): bv32
    decreases |bits|
  {
    if bits == [] then c else FeedAll(Feed(c, bits[0]), bits[1..])
  }

  /** The lowest bits of a word, the lowest first. */
  function Low(x: bv32, n: nat): (r: seq<bool>)
    ensures |r| == n
  {
    if n == 0 then [] else [Bit(x)] + Low(Half(x), n - 1)
  }

  function MessageBits(s: seq<Octet>): (r: seq<bool>)
    ensures |r| == 8 * |s|
  {
    if s == [] then [] else Low(s[0] as bv32, 8) + MessageBits(s[1..])
  }

  /** CRC32C of a buffer, continued from a register value. */
  function Crc(c: bv32, s: seq<Octet>): bv32 {
    FeedAll(c, MessageBits(s))
  }

  lemma {:induction false} FeedAppend(c: bv32, a: seq<bool>, b: seq<bool>)
    ensures FeedAll(c, a + b) == FeedAll(FeedAll(c, a), b)
    decreases |a|
  {
    hide Feed;
    if a == [] {
      assert a + b == b;
    } else {
      assert (a + b)[1..] == a[1..] + b;
      FeedAppend(Feed(c, a[0]), a[1..], b);
    }
  }

  lemma {:induction false} BitsAppend(a: seq<Octet>, b: seq<Octet>)
    ensures MessageBits(a + b) == MessageBits(a) + MessageBits(b)
  {
    hide Low;
    if a == [] {
      assert a + b == b;
    } else {
      assert (a + b)[1..] == a[1..] + b;
      BitsAppend(a[1..], b);
    }
  }

  /** The code of a concatenation continues the code of its first part. */
  lemma CrcAppend(c: bv32, a: seq<Octet>, b: seq<Octet>)
    ensures Crc(c, a + b) == Crc(Crc(c, a), b)
  {
    hide FeedAll;
    hide MessageBits;
    BitsAppend(a, b);
    FeedAppend(c, MessageBits(a), MessageBits(b));
  }

  lemma CrcNone(c: bv32)
    ensures Crc(c, []) == c
  {
  }

  lemma CrcOne(c: bv32, b: Octet)
    ensures Crc(c, [b]) == FeedAll(c, Low(b as bv32, 8))
  {
    hide FeedAll;
    hide Low;
    assert Low(b as bv32, 8) + [] == Low(b as bv32, 8);
  }

  // ----- several bits at a time -----

  function Shifts(c: bv32, n: nat): bv32
    decreases n
  {
    if n == 0 then c else Shifts(Feed(c, false), n - 1)
  }

  /** A word without its lowest bits. */
  function Rest(x: bv32, n: nat): bv32
    decreases n
  {
    if n == 0 then x else Rest(Half(x), n - 1)
  }

  lemma XorParts(c: bv32, x: bv32)
    ensures Bit(Xor(c, x)) == (Bit(c) != Bit(x))
    ensures Half(Xor(c, x)) == Xor(Half(c), Half(x))
  {
    RawParts(c, x);
  }

  lemma RawParts(c: bv32, x: bv32)
    ensures ((c ^ x) & 1 == 1) == ((c & 1 == 1) != (x & 1 == 1))
    ensures (c ^ x) >> 1 == (c >> 1) ^ (x >> 1)
  {
  }

  lemma XorSwap(a: bv32, b: bv32, p: bv32)
    ensures Xor(Xor(a, b), p) == Xor(Xor(a, p), b)
  {
    assert Xor(a, b) == a ^ b;
    assert Xor(a, p) == a ^ p;
    RawSwap(a, b, p);
  }

  lemma RawSwap(a: bv32, b: bv32, p: bv32)
    ensures (a ^ b) ^ p == (a ^ p) ^ b
  {
  }

  lemma XorZero(c: bv32)
    ensures Xor(c, 0) == c
  {
  }

  lemma ShiftFeed(c: bv32, x: bv32)
    ensures Feed(Xor(c, x), false) == Xor(Feed(c, Bit(x)), Half(x))
  {
    hide Bit;
    hide Half;
    hide Xor;
    XorParts(c, x);
    XorSwap(Half(c), Half(x), POLY);
  }

  lemma FeedFirst(c: bv32, x: bv32, n: nat)
    ensures FeedAll(c, Low(x, n + 1)) == FeedAll(Feed(c, Bit(x)), Low(Half(x), n))
    ensures Shifts(c, n + 1) == Shifts(Feed(c, false), n) && Rest(x, n + 1) == Rest(Half(x), n)
  {
    hide Feed;
    hide Xor;
    hide Half;
    hide Bit;
    assert Low(x, n + 1)[1..] == Low(Half(x), n);
  }

  /** Bits that wait in the register are as good as bits that are fed. */
  lemma {:induction false} ShiftsFeed(c: bv32, x: bv32, n: nat)
    ensures Shifts(Xor(c, x), n) == Xor(FeedAll(c, Low(x, n)), Rest(x, n))
    decreases n
  {
    hide Feed;
    hide Xor;
    hide Half;
    hide Bit;
    if n > 0 {
      FeedFirst(Xor(c, x), x, n - 1);
      FeedFirst(c, x, n - 1);
      ShiftFeed(c, x);
      ShiftsFeed(Feed(c, Bit(x)), Half(x), n - 1);
    }
  }

  lemma {:induction false} LowSplit(x: bv32, m: nat, n: nat)
    ensures Low(x, m + n) == Low(x, m) + Low(Rest(x, m), n)
    decreases m
  {
    hide Half;
    hide Bit;
    if m > 0 {
      LowSplit(Half(x), m - 1, n);
    }
  }

  lemma {:induction false} RestSplit(x: bv32, m: nat, n: nat)
    ensures Rest(x, m + n) == Rest(Rest(x, m), n)
    decreases m
  {
    hide Half;
    if m > 0 {
      RestSplit(Half(x), m - 1, n);
    }
  }

  lemma RestFour(x: bv32)
    ensures Rest(x, 4) == By4(x)
  {
    RawFour(x);
    assert Rest(x, 4) == Rest(Half(x), 3) == Rest(Half(Half(x)), 2) == Rest(Half(Half(Half(x))), 1);
  }

  lemma RawFour(x: bv32)
    ensures x >> 1 >> 1 >> 1 >> 1 == x >> 4
  {
  }

  lemma FourFour(x: bv32)
    ensures By4(By4(x)) == By8(x)
  {
  }

  lemma RestByte(x: bv32)
    ensures Rest(x, 8) == By8(x)
  {
    hide Rest;
    hide Half;
    hide By4;
    hide By8;
    RestSplit(x, 4, 4);
    RestFour(x);
    RestFour(By4(x));
    FourFour(x);
  }

  /** The lowest `n` bits of a word are ones. */
  predicate Ones(m: bv32, n: nat) {
    n == 0 || (Bit(m) && Ones(Half(m), n - 1))
  }

  lemma OnesByte()
    ensures Ones(0xFF, 8)
  {
    assert Half(0xFF) == 0x7F && Half(0x7F) == 0x3F && Half(0x3F) == 0x1F && Half(0x1F) == 0xF;
    assert Half(0xF) == 7 && Half(7) == 3 && Half(3) == 1;
    assert Bit(0xFF) && Bit(0x7F) && Bit(0x3F) && Bit(0x1F) && Bit(0xF) && Bit(7) && Bit(3) && Bit(1);
    hide Half;
    hide Bit;
    assert Ones(1, 1);
    assert Ones(3, 2);
    assert Ones(7, 3);
    assert Ones(0xF, 4);
    assert Ones(0x1F, 5);
    assert Ones(0x3F, 6);
    assert Ones(0x7F, 7);
  }

  predicate Agree(x: bv32, y: bv32, m: bv32) { (x ^ y) & m == 0 }

  lemma AgreeHalf(x: bv32, y: bv32, m: bv32)
    requires Agree(x, y, m)
    ensures Agree(Half(x), Half(y), Half(m)) && (Bit(m) ==> Bit(x) == Bit(y))
  {
  }

  lemma {:induction false} LowMasked(x: bv32, y: bv32, m: bv32, n: nat)
    requires Agree(x, y, m) && Ones(m, n)
    ensures Low(x, n) == Low(y, n)
    decreases n
  {
    hide Half;
    hide Bit;
    hide Agree;
    if n > 0 {
      AgreeHalf(x, y, m);
      LowMasked(Half(x), Half(y), Half(m), n - 1);
    }
  }

  // ----- the table -----

  /** `crc32_tab`, in rows of sixteen. */
  const TABLE: seq<seq<bv32>> := [
    [0x00000000, 0xF26B8303, 0xE13B70F7, 0x1350F3F4, 0xC79A971F, 0x35F1141C, 0x26A1E7E8, 0xD4CA64EB,
     0x8AD958CF, 0x78B2DBCC, 0x6BE22838, 0x9989AB3B, 0x4D43CFD0, 0xBF284CD3, 0xAC78BF27, 0x5E133C24],
    [0x105EC76F, 0xE235446C, 0xF165B798, 0x030E349B, 0xD7C45070, 0x25AFD373, 0x36FF2087, 0xC494A384,
     0x9A879FA0, 0x68EC1CA3, 0x7BBCEF57, 0x89D76C54, 0x5D1D08BF, 0xAF768BBC, 0xBC267848, 0x4E4DFB4B],
    [0x20BD8EDE, 0xD2D60DDD, 0xC186FE29, 0x33ED7D2A, 0xE72719C1, 0x154C9AC2, 0x061C6936, 0xF477EA35,
     0xAA64D611, 0x580F5512, 0x4B5FA6E6, 0xB93425E5, 0x6DFE410E, 0x9F95C20D, 0x8CC531F9, 0x7EAEB2FA],
    [0x30E349B1, 0xC288CAB2, 0xD1D83946, 0x23B3BA45, 0xF779DEAE, 0x05125DAD, 0x1642AE59, 0xE4292D5A,
     0xBA3A117E, 0x4851927D, 0x5B016189, 0xA96AE28A, 0x7DA08661, 0x8FCB0562, 0x9C9BF696, 0x6EF07595],
    [0x417B1DBC, 0xB3109EBF, 0xA0406D4B, 0x522BEE48, 0x86E18AA3, 0x748A09A0, 0x67DAFA54, 0x95B17957,
     0xCBA24573, 0x39C9C670, 0x2A993584, 0xD8F2B687, 0x0C38D26C, 0xFE53516F, 0xED03A29B, 0x1F682198],
    [0x5125DAD3, 0xA34E59D0, 0xB01EAA24, 0x42752927, 0x96BF4DCC, 0x64D4CECF, 0x77843D3B, 0x85EFBE38,
     0xDBFC821C, 0x2997011F, 0x3AC7F2EB, 0xC8AC71E8, 0x1C661503, 0xEE0D9600, 0xFD5D65F4, 0x0F36E6F7],
    [0x61C69362, 0x93AD1061, 0x80FDE395, 0x72966096, 0xA65C047D, 0x5437877E, 0x4767748A, 0xB50CF789,
     0xEB1FCBAD, 0x197448AE, 0x0A24BB5A, 0xF84F3859, 0x2C855CB2, 0xDEEEDFB1, 0xCDBE2C45, 0x3FD5AF46],
    [0x7198540D, 0x83F3D70E, 0x90A324FA, 0x62C8A7F9, 0xB602C312, 0x44694011, 0x5739B3E5, 0xA55230E6,
     0xFB410CC2, 0x092A8FC1, 0x1A7A7C35, 0xE811FF36, 0x3CDB9BDD, 0xCEB018DE, 0xDDE0EB2A, 0x2F8B6829],
    [0x82F63B78, 0x709DB87B, 0x63CD4B8F, 0x91A6C88C, 0x456CAC67, 0xB7072F64, 0xA457DC90, 0x563C5F93,
     0x082F63B7, 0xFA44E0B4, 0xE9141340, 0x1B7F9043, 0xCFB5F4A8, 0x3DDE77AB, 0x2E8E845F, 0xDCE5075C],
    [0x92A8FC17, 0x60C37F14, 0x73938CE0, 0x81F80FE3, 0x55326B08, 0xA759E80B, 0xB4091BFF, 0x466298FC,
     0x1871A4D8, 0xEA1A27DB, 0xF94AD42F, 0x0B21572C, 0xDFEB33C7, 0x2D80B0C4, 0x3ED04330, 0xCCBBC033],
    [0xA24BB5A6, 0x502036A5, 0x4370C551, 0xB11B4652, 0x65D122B9, 0x97BAA1BA, 0x84EA524E, 0x7681D14D,
     0x2892ED69, 0xDAF96E6A, 0xC9A99D9E, 0x3BC21E9D, 0xEF087A76, 0x1D63F975, 0x0E330A81, 0xFC588982],
    [0xB21572C9, 0x407EF1CA, 0x532E023E, 0xA145813D, 0x758FE5D6, 0x87E466D5, 0x94B49521, 0x66DF1622,
     0x38CC2A06, 0xCAA7A905, 0xD9F75AF1, 0x2B9CD9F2, 0xFF56BD19, 0x0D3D3E1A, 0x1E6DCDEE, 0xEC064EED],
    [0xC38D26C4, 0x31E6A5C7, 0x22B65633, 0xD0DDD530, 0x0417B1DB, 0xF67C32D8, 0xE52CC12C, 0x1747422F,
     0x49547E0B, 0xBB3FFD08, 0xA86F0EFC, 0x5A048DFF, 0x8ECEE914, 0x7CA56A17, 0x6FF599E3, 0x9D9E1AE0],
    [0xD3D3E1AB, 0x21B862A8, 0x32E8915C, 0xC083125F, 0x144976B4, 0xE622F5B7, 0xF5720643, 0x07198540,
     0x590AB964, 0xAB613A67, 0xB831C993, 0x4A5A4A90, 0x9E902E7B, 0x6CFBAD78, 0x7FAB5E8C, 0x8DC0DD8F],
    [0xE330A81A, 0x115B2B19, 0x020BD8ED, 0xF0605BEE, 0x24AA3F05, 0xD6C1BC06, 0xC5914FF2, 0x37FACCF1,
     0x69E9F0D5, 0x9B8273D6, 0x88D28022, 0x7AB90321, 0xAE7367CA, 0x5C18E4C9, 0x4F48173D, 0xBD23943E],
    [0xF36E6F75, 0x0105EC76, 0x12551F82, 0xE03E9C81, 0x34F4F86A, 0xC69F7B69, 0xD5CF889D, 0x27A40B9E,
     0x79B737BA, 0x8BDCB4B9, 0x988C474D, 0x6AE7C44E, 0xBE2DA0A5, 0x4C4623A6, 0x5F16D052, 0xAD7D5351]
  ]

  function Shift(c: bv32): bv32 {
    if c & 1 == 1 then (c >> 1) ^ POLY else c >> 1
  }

  function Shift8(c: bv32): bv32 {
    Shift(Shift(Shift(Shift(Shift(Shift(Shift(Shift(c))))))))
  }

  lemma ShiftIsFeed(c: bv32)
    ensures Shift(c) == Feed(c, false)
  {
  }

  lemma EightShifts(c: bv32)
    ensures Shift8(c) == Shifts(c, 8)
  {
    hide Shift;
    hide Feed;
    var c1 := Feed(c, false);
    var c2 := Feed(c1, false);
    var c3 := Feed(c2, false);
    var c4 := Feed(c3, false);
    var c5 := Feed(c4, false);
    var c6 := Feed(c5, false);
    var c7 := Feed(c6, false);
    ShiftIsFeed(c);
    ShiftIsFeed(c1);
    ShiftIsFeed(c2);
    ShiftIsFeed(c3);
    ShiftIsFeed(c4);
    ShiftIsFeed(c5);
    ShiftIsFeed(c6);
    ShiftIsFeed(c7);
    assert Shifts(c, 8) == Shifts(c1, 7) == Shifts(c2, 6) == Shifts(c3, 5) == Shifts(c4, 4) == Shifts(c5, 3) == Shifts(c6, 2) == Shifts(c7, 1);
  }

  predicate Nibble(j: bv8) {
    j == 0 || j == 1 || j == 2 || j == 3 || j == 4 || j == 5 || j == 6 || j == 7 ||
    j == 8 || j == 9 || j == 10 || j == 11 || j == 12 || j == 13 || j == 14 || j == 15
  }

  lemma Row0(j: bv8)
    requires Nibble(j)
    ensures |TABLE[0]| == 16 && TABLE[0][j as nat] == Shift8(0x00 ^ (j as bv32))
  {
  }

  lemma Row1(j: bv8)
    requires Nibble(j)
    ensures |TABLE[1]| == 16 && TABLE[1][j as nat] == Shift8(0x10 ^ (j as bv32))
  {
  }

  lemma Row2(j: bv8)
    requires Nibble(j)
    ensures |TABLE[2]| == 16 && TABLE[2][j as nat] == Shift8(0x20 ^ (j as bv32))
  {
  }

  lemma Row3(j: bv8)
    requires Nibble(j)
    ensures |TABLE[3]| == 16 && TABLE[3][j as nat] == Shift8(0x30 ^ (j as bv32))
  {
  }

  lemma Row4(j: bv8)
    requires Nibble(j)
    ensures |TABLE[4]| == 16 && TABLE[4][j as nat] == Shift8(0x40 ^ (j as bv32))
  {
  }

  lemma Row5(j: bv8)
    requires Nibble(j)
    ensures |TABLE[5]| == 16 && TABLE[5][j as nat] == Shift8(0x50 ^ (j as bv32))
  {
  }

  lemma Row6(j: bv8)
    requires Nibble(j)
    ensures |TABLE[6]| == 16 && TABLE[6][j as nat] == Shift8(0x60 ^ (j as bv32))
  {
  }

  lemma Row7(j: bv8)
    requires Nibble(j)
    ensures |TABLE[7]| == 16 && TABLE[7][j as nat] == Shift8(0x70 ^ (j as bv32))
  {
  }

  lemma Row8(j: bv8)
    requires Nibble(j)
    ensures |TABLE[8]| == 16 && TABLE[8][j as nat] == Shift8(0x80 ^ (j as bv32))
  {
  }

  lemma Row9(j: bv8)
    requires Nibble(j)
    ensures |TABLE[9]| == 16 && TABLE[9][j as nat] == Shift8(0x90 ^ (j as bv32))
  {
  }

  lemma RowA(j: bv8)
    requires Nibble(j)
    ensures |TABLE[10]| == 16 && TABLE[10][j as nat] == Shift8(0xA0 ^ (j as bv32))
  {
  }

  lemma RowB(j: bv8)
    requires Nibble(j)
    ensures |TABLE[11]| == 16 && TABLE[11][j as nat] == Shift8(0xB0 ^ (j as bv32))
  {
  }

  lemma RowC(j: bv8)
    requires Nibble(j)
    ensures |TABLE[12]| == 16 && TABLE[12][j as nat] == Shift8(0xC0 ^ (j as bv32))
  {
  }

  lemma RowD(j: bv8)
    requires Nibble(j)
    ensures |TABLE[13]| == 16 && TABLE[13][j as nat] == Shift8(0xD0 ^ (j as bv32))
  {
  }

  lemma RowE(j: bv8)
    requires Nibble(j)
    ensures |TABLE[14]| == 16 && TABLE[14][j as nat] == Shift8(0xE0 ^ (j as bv32))
  {
  }

  lemma RowF(j: bv8)
    requires Nibble(j)
    ensures |TABLE[15]| == 16 && TABLE[15][j as nat] == Shift8(0xF0 ^ (j as bv32))
  {
  }

  function High(i: Octet): bv8 { i >> 4 }

  function Lower(i: Octet): bv8 { i & 15 }

  lemma Nibbles(i: Octet)
    ensures Nibble(High(i)) && Nibble(Lower(i)) && (i as bv32) == ((High(i) as bv32) << 4) ^ (Lower(i) as bv32)
  {
  }

  lemma TableRows()
    ensures |TABLE| == 16
  {
  }

  /** An entry of the table is the code of its index. */
  lemma TableEntry(i: Octet)
    ensures |TABLE| == 16 && |TABLE[High(i) as nat]| == 16
    ensures TABLE[High(i) as nat][Lower(i) as nat] == Shift8(i as bv32)
  {
    hide TABLE;
    hide Shift8;
    hide High;
    hide Lower;
    Nibbles(i);
    TableRows();
    var h, l := High(i), Lower(i);
    if h == 0 { Row0(l); }
    else if h == 1 { Row1(l); }
    else if h == 2 { Row2(l); }
    else if h == 3 { Row3(l); }
    else if h == 4 { Row4(l); }
    else if h == 5 { Row5(l); }
    else if h == 6 { Row6(l); }
    else if h == 7 { Row7(l); }
    else if h == 8 { Row8(l); }
    else if h == 9 { Row9(l); }
    else if h == 10 { RowA(l); }
    else if h == 11 { RowB(l); }
    else if h == 12 { RowC(l); }
    else if h == 13 { RowD(l); }
    else if h == 14 { RowE(l); }
    else { RowF(l); }
  }

  /** `(unsigned char)crc_int ^ buffer[i]` */
  function Index(c: bv32, b: Octet): Octet {
    ((c & 0xFF) as bv8) ^ b
  }

  function Upper(c: bv32): bv32 { c & 0xFFFFFF00 }

  lemma RegisterParts(c: bv32, b: Octet)
    ensures Xor(c, b as bv32) == Xor(Index(c, b) as bv32, Upper(c))
    ensures By8(Upper(c)) == By8(c) && By8(b as bv32) == 0 && By8(0) == 0 && Agree(Upper(c), 0, 0xFF)
  {
  }

  lemma ByteStep(c: bv32, b: Octet)
    ensures FeedAll(c, Low(b as bv32, 8)) == Shifts(Xor(c, b as bv32), 8)
  {
    hide FeedAll;
    hide Low;
    hide Shifts;
    hide Rest;
    hide Xor;
    hide By8;
    ShiftsFeed(c, b as bv32, 8);
    RestByte(b as bv32);
    RegisterParts(c, b);
    XorZero(FeedAll(c, Low(b as bv32, 8)));
  }

  lemma UpperWaits(i: bv32, u: bv32)
    requires Agree(u, 0, 0xFF)
    ensures Shifts(Xor(i, u), 8) == Xor(Shifts(i, 8), By8(u))
  {
    hide FeedAll;
    hide Low;
    hide Shifts;
    hide Rest;
    hide Xor;
    hide By8;
    hide Agree;
    RegisterParts(0, 0);
    OnesByte();
    ShiftsFeed(i, u, 8);
    LowMasked(u, 0, 0xFF, 8);
    RestByte(u);
    ShiftsFeed(i, 0, 8);
    RestByte(0);
    XorZero(i);
    XorZero(FeedAll(i, Low(0, 8)));
  }

  /** One turn of the table loop is one byte of the reference. */
  lemma TableStep(c: bv32, b: Octet)
    ensures |TABLE| == 16
    ensures var i := Index(c, b);
            && High(i) as nat < 16 && Lower(i) as nat < 16 && |TABLE[High(i) as nat]| == 16
            && Xor(TABLE[High(i) as nat][Lower(i) as nat], By8(c)) == FeedAll(c, Low(b as bv32, 8))
  {
    hide TABLE;
    hide FeedAll;
    hide Low;
    hide Shifts;
    hide Shift8;
    hide Xor;
    hide By8;
    hide Agree;
    hide Upper;
    hide Index;
    hide High;
    hide Lower;
    var i := Index(c, b);
    ByteStep(c, b);
    RegisterParts(c, b);
    UpperWaits(i as bv32, Upper(c));
    EightShifts(i as bv32);
    TableEntry(i);
    Nibbles(i);
  }

  lemma CrcNext(c: bv32, s: seq<Octet>, i: nat)
    requires i < |s|
    ensures Crc(c, s[..i + 1]) == FeedAll(Crc(c, s[..i]), Low(s[i] as bv32, 8))
  {
    hide Crc;
    hide FeedAll;
    hide Low;
    assert s[..i + 1] == s[..i] + [s[i]];
    CrcAppend(c, s[..i], [s[i]]);
    CrcOne(Crc(c, s[..i]), s[i]);
  }

  /** `pgvictoria_crc32c_software` */
  method Software(buffer: seq<Octet>, crc: bv32) returns (crcInt: bv32)
    ensures crcInt == Crc(crc, buffer)
  {
    hide TABLE;
    hide Crc;
    hide FeedAll;
    hide Low;
    hide Index;
    hide High;
    hide Lower;
    hide Xor;
    hide By8;
    crcInt := crc;
    CrcNone(crc);
    assert buffer[..0] == [];
    for i := 0 to |buffer|
      invariant crcInt == Crc(crc, buffer[..i])
    {
      CrcNext(crc, buffer, i);
      TableStep(crcInt, buffer[i]);
      var index := Index(crcInt, buffer[i]);
      crcInt := Xor(TABLE[High(index) as nat][Lower(index) as nat], By8(crcInt));
    }
    assert buffer[..|buffer|] == buffer;
  }

  // ----- the instructions -----

  /** `_mm_crc32_u8`, `_mm_crc32_u32` and `_mm_crc32_u64`: the bits of the operand enter the
      register, the lowest first. */
  function CrcU8(c: bv32, x: Octet): bv32 {
    FeedAll(c, Low(x as bv32, 8))
  }

  function CrcU32(c: bv32, x: bv32): bv32 {
    FeedAll(c, Low(x, 32))
  }

  function CrcU64(c: bv32, x: bv64): bv32 {
    FeedAll(c, Low((x & 0xFFFF_FFFF) as bv32, 32) + Low((x >> 32) as bv32, 32))
  }

  function Join(a: Octet, b: Octet, c: Octet, d: Octet): bv32 {
    (a as bv32) | ((b as bv32) << 8) | ((c as bv32) << 16) | ((d as bv32) << 24)
  }

  /** Loads of a little-endian machine. */
  function Load32(s: seq<Octet>): bv32
    requires |s| == 4
  {
    Join(s[0], s[1], s[2], s[3])
  }

  function Load64(s: seq<Octet>): bv64
    requires |s| == 8
  {
    (Load32(s[..4]) as bv64) | ((Load32(s[4..]) as bv64) << 32)
  }

  lemma LoadBytes(a: Octet, b: Octet, c: Octet, d: Octet)
    ensures var x := Join(a, b, c, d);
            && Agree(x, a as bv32, 0xFF) && Agree(By8(x), b as bv32, 0xFF)
            && Agree(By8(By8(x)), c as bv32, 0xFF) && Agree(By8(By8(By8(x))), d as bv32, 0xFF)
  {
  }

  lemma LoadHalves(s: seq<Octet>)
    requires |s| == 8
    ensures (Load64(s) & 0xFFFF_FFFF) as bv32 == Load32(s[..4]) && (Load64(s) >> 32) as bv32 == Load32(s[4..])
  {
    hide Load32;
  }

  /** The bytes of a word, the lowest first. */
  predicate Holds(x: bv32, s: seq<Octet>)
    decreases |s|
  {
    s == [] || (Agree(x, s[0] as bv32, 0xFF) && Holds(By8(x), s[1..]))
  }

  lemma {:induction false} HoldsBits(x: bv32, s: seq<Octet>)
    requires Holds(x, s)
    ensures Low(x, 8 * |s|) == MessageBits(s)
    decreases |s|
  {
    hide By8;
    hide Agree;
    hide Low;
    hide Rest;
    LowNone(x);
    if s != [] {
      HoldsBits(By8(x), s[1..]);
      OnesByte();
      LowMasked(x, s[0] as bv32, 0xFF, 8);
      LowSplit(x, 8, 8 * |s[1..]|);
      RestByte(x);
    }
  }

  lemma LowNone(x: bv32)
    ensures Low(x, 0) == []
  {
  }

  lemma HoldsStep(x: bv32, s: seq<Octet>, t: seq<Octet>)
    requires s != [] && t == s[1..] && Agree(x, s[0] as bv32, 0xFF) && Holds(By8(x), t)
    ensures Holds(x, s)
  {
    hide By8;
    hide Agree;
  }

  lemma LoadAgrees(s: seq<Octet>)
    requires |s| == 4
    ensures var x := Load32(s);
            && Agree(x, s[0] as bv32, 0xFF) && Agree(By8(x), s[1] as bv32, 0xFF)
            && Agree(By8(By8(x)), s[2] as bv32, 0xFF) && Agree(By8(By8(By8(x))), s[3] as bv32, 0xFF)
  {
    hide Agree;
    hide By8;
    hide Join;
    LoadBytes(s[0], s[1], s[2], s[3]);
  }

  lemma HoldsLoad(s: seq<Octet>)
    requires |s| == 4
    ensures Holds(Load32(s), s)
  {
    hide By8;
    hide Agree;
    hide Load32;
    hide Holds;
    var x := Load32(s);
    LoadAgrees(s);
    HoldsNone(By8(By8(By8(By8(x)))));
    HoldsStep(By8(By8(By8(x))), s[3..], []);
    HoldsStep(By8(By8(x)), s[2..], s[3..]);
    HoldsStep(By8(x), s[1..], s[2..]);
    HoldsStep(x, s, s[1..]);
  }

  lemma HoldsNone(x: bv32)
    ensures Holds(x, [])
  {
  }

  /** The bits of a loaded word are the bits of the bytes it was loaded from. */
  lemma WordBits(s: seq<Octet>)
    requires |s| == 4
    ensures Low(Load32(s), 32) == MessageBits(s)
  {
    hide Low;
    hide MessageBits;
    hide Load32;
    HoldsLoad(s);
    HoldsBits(Load32(s), s);
  }

  lemma InstructionIsReference(c: bv32, s: seq<Octet>)
    ensures |s| == 1 ==> CrcU8(c, s[0]) == Crc(c, s)
    ensures |s| == 4 ==> CrcU32(c, Load32(s)) == Crc(c, s)
    ensures |s| == 8 ==> CrcU64(c, Load64(s)) == Crc(c, s)
  {
    hide Low;
    hide MessageBits;
    hide FeedAll;
    hide Load32;
    hide Load64;
    if |s| == 1 {
      assert s == [s[0]];
      CrcOne(c, s[0]);
    } else if |s| == 4 {
      WordBits(s);
    } else if |s| == 8 {
      LoadHalves(s);
      WordBits(s[..4]);
      WordBits(s[4..]);
      assert s == s[..4] + s[4..];
      BitsAppend(s[..4], s[4..]);
    }
  }

  lemma CrcGroup(c: bv32, s: seq<Octet>, i: nat, n: nat)
    requires i + n <= |s|
    ensures Crc(c, s[..i + n]) == Crc(Crc(c, s[..i]), s[i..i + n])
  {
    hide Crc;
    assert s[..i + n] == s[..i] + s[i..i + n];
    CrcAppend(c, s[..i], s[i..i + n]);
  }

  /** `pgvictoria_crc32c_sse42`: groups of eight bytes, then one of four, then single bytes. */
  method Sse42(buffer: seq<Octet>, crc: bv32) returns (crc32: bv32)
    ensures crc32 == Crc(crc, buffer)
  {
    hide Crc;
    hide CrcU8;
    hide CrcU32;
    hide CrcU64;
    hide Load32;
    hide Load64;
    crc32 := crc;
    var p := 0;
    CrcNone(crc);
    assert buffer[..0] == [];
    while p + 8 <= |buffer|
      invariant p <= |buffer| && crc32 == Crc(crc, buffer[..p])
    {
      CrcGroup(crc, buffer, p, 8);
      InstructionIsReference(crc32, buffer[p..p + 8]);
      crc32 := CrcU64(crc32, Load64(buffer[p..p + 8]));
      p := p + 8;
    }
    if p + 4 <= |buffer| {
      CrcGroup(crc, buffer, p, 4);
      InstructionIsReference(crc32, buffer[p..p + 4]);
      crc32 := CrcU32(crc32, Load32(buffer[p..p + 4]));
      p := p + 4;
    }
    while p < |buffer|
      invariant p <= |buffer| && crc32 == Crc(crc, buffer[..p])
    {
      CrcGroup(crc, buffer, p, 1);
      InstructionIsReference(crc32, buffer[p..p + 1]);
      crc32 := CrcU8(crc32, buffer[p]);
      p := p + 1;
    }
    assert buffer[..|buffer|] == buffer;
  }

  /** `pgvictoria_create_crc32c_buffer`: whichever implementation the processor supports. */
  method CreateBuffer(sse42: bool, buffer: seq<Octet>, crc: bv32) returns (r: bv32)
    ensures r == Crc(crc, buffer)
  {
    hide Crc;
    if sse42 {
      r := Sse42(buffer, crc);
    } else {
      r := Software(buffer, crc);
    }
  }

  const READ_SIZE: nat := 16384

  /** The loop of `pgvictoria_create_crc32c_file` over the content of the file. */
  method CreateFile(sse42: bool, content: seq<Octet>) returns (crc: bv32)
    ensures crc == Crc(0, content)
  {
    hide Crc;
    crc := 0;
    var offset := 0;
    CrcNone(0);
    assert content[..0] == [];
    while offset < |content|
      invariant offset <= |content| && crc == Crc(0, content[..offset])
    {
      var read := if |content| - offset < READ_SIZE then |content| - offset else READ_SIZE;
      CrcGroup(0, content, offset, read);
      crc := CreateBuffer(sse42, content[offset..offset + read], crc);
      offset := offset + read;
    }
    assert content[..|content|] == content;
  }
}
