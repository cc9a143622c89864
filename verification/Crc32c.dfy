/** CRC-32C by a table of feedback terms, byte by byte (kernfs/mlfs_crc32.c), and the bit-serial
    checksum that it computes (section 12.1 of RFC 3720). */
module Crc32c {

  /** The Castagnoli polynomial, lowest-order term in the highest bit. */
  const POLY: bv32 := 0x82F63B78

  /** One step of the shift register. */
  function Shift(c: bv32): bv32 { if c & 1 == 1 then (c >> 1) ^ POLY else c >> 1 }

  function Two(c: bv32): bv32 { Shift(Shift(c)) }

  function Four(c: bv32): bv32 { Two(Two(c)) }

  /** Eight steps. */
  function Eight(c: bv32): bv32 { Four(Four(c)) }

  /** A byte of the message enters at the low end and is shifted out. */
  function Step(c: bv32, b: bv8): bv32 { Eight(c ^ (b as bv32)) }

  function Fold<W, B>(f: (W, B) -> W, c: W, s: seq<B>): W
    decreases |s|
  {
    if s == [] then c else Fold(f, f(c, s[0]), s[1..])
  }

  /** The bit-serial checksum of a buffer, started from c. */
  function Crc(c: bv32, buf: seq<bv8>): bv32 { Fold(Step, c, buf) }

  // ----- the table -----

  function Row0(l: bv8): bv32
  {
    if l == 0 then 0x00000000 else if l == 1 then 0xF26B8303 else if l == 2 then 0xE13B70F7 else if l == 3 then 0x1350F3F4 else
    if l == 4 then 0xC79A971F else if l == 5 then 0x35F1141C else if l == 6 then 0x26A1E7E8 else if l == 7 then 0xD4CA64EB else
    if l == 8 then 0x8AD958CF else if l == 9 then 0x78B2DBCC else if l == 10 then 0x6BE22838 else if l == 11 then 0x9989AB3B else
    if l == 12 then 0x4D43CFD0 else if l == 13 then 0xBF284CD3 else if l == 14 then 0xAC78BF27 else 0x5E133C24
  }

  function Row1(l: bv8): bv32
  {
    if l == 0 then 0x105EC76F else if l == 1 then 0xE235446C else if l == 2 then 0xF165B798 else if l == 3 then 0x030E349B else
    if l == 4 then 0xD7C45070 else if l == 5 then 0x25AFD373 else if l == 6 then 0x36FF2087 else if l == 7 then 0xC494A384 else
    if l == 8 then 0x9A879FA0 else if l == 9 then 0x68EC1CA3 else if l == 10 then 0x7BBCEF57 else if l == 11 then 0x89D76C54 else
    if l == 12 then 0x5D1D08BF else if l == 13 then 0xAF768BBC else if l == 14 then 0xBC267848 else 0x4E4DFB4B
  }

  function Row2(l: bv8): bv32
  {
    if l == 0 then 0x20BD8EDE else if l == 1 then 0xD2D60DDD else if l == 2 then 0xC186FE29 else if l == 3 then 0x33ED7D2A else
    if l == 4 then 0xE72719C1 else if l == 5 then 0x154C9AC2 else if l == 6 then 0x061C6936 else if l == 7 then 0xF477EA35 else
    if l == 8 then 0xAA64D611 else if l == 9 then 0x580F5512 else if l == 10 then 0x4B5FA6E6 else if l == 11 then 0xB93425E5 else
    if l == 12 then 0x6DFE410E else if l == 13 then 0x9F95C20D else if l == 14 then 0x8CC531F9 else 0x7EAEB2FA
  }

  function Row3(l: bv8): bv32
  {
    if l == 0 then 0x30E349B1 else if l == 1 then 0xC288CAB2 else if l == 2 then 0xD1D83946 else if l == 3 then 0x23B3BA45 else
    if l == 4 then 0xF779DEAE else if l == 5 then 0x05125DAD else if l == 6 then 0x1642AE59 else if l == 7 then 0xE4292D5A else
    if l == 8 then 0xBA3A117E else if l == 9 then 0x4851927D else if l == 10 then 0x5B016189 else if l == 11 then 0xA96AE28A else
    if l == 12 then 0x7DA08661 else if l == 13 then 0x8FCB0562 else if l == 14 then 0x9C9BF696 else 0x6EF07595
  }

  function Row4(l: bv8): bv32
  {
    if l == 0 then 0x417B1DBC else if l == 1 then 0xB3109EBF else if l == 2 then 0xA0406D4B else if l == 3 then 0x522BEE48 else
    if l == 4 then 0x86E18AA3 else if l == 5 then 0x748A09A0 else if l == 6 then 0x67DAFA54 else if l == 7 then 0x95B17957 else
    if l == 8 then 0xCBA24573 else if l == 9 then 0x39C9C670 else if l == 10 then 0x2A993584 else if l == 11 then 0xD8F2B687 else
    if l == 12 then 0x0C38D26C else if l == 13 then 0xFE53516F else if l == 14 then 0xED03A29B else 0x1F682198
  }

  function Row5(l: bv8): bv32
  {
    if l == 0 then 0x5125DAD3 else if l == 1 then 0xA34E59D0 else if l == 2 then 0xB01EAA24 else if l == 3 then 0x42752927 else
    if l == 4 then 0x96BF4DCC else if l == 5 then 0x64D4CECF else if l == 6 then 0x77843D3B else if l == 7 then 0x85EFBE38 else
    if l == 8 then 0xDBFC821C else if l == 9 then 0x2997011F else if l == 10 then 0x3AC7F2EB else if l == 11 then 0xC8AC71E8 else
    if l == 12 then 0x1C661503 else if l == 13 then 0xEE0D9600 else if l == 14 then 0xFD5D65F4 else 0x0F36E6F7
  }

  function Row6(l: bv8): bv32
  {
    if l == 0 then 0x61C69362 else if l == 1 then 0x93AD1061 else if l == 2 then 0x80FDE395 else if l == 3 then 0x72966096 else
    if l == 4 then 0xA65C047D else if l == 5 then 0x5437877E else if l == 6 then 0x4767748A else if l == 7 then 0xB50CF789 else
    if l == 8 then 0xEB1FCBAD else if l == 9 then 0x197448AE else if l == 10 then 0x0A24BB5A else if l == 11 then 0xF84F3859 else
    if l == 12 then 0x2C855CB2 else if l == 13 then 0xDEEEDFB1 else if l == 14 then 0xCDBE2C45 else 0x3FD5AF46
  }

  function Row7(l: bv8): bv32
  {
    if l == 0 then 0x7198540D else if l == 1 then 0x83F3D70E else if l == 2 then 0x90A324FA else if l == 3 then 0x62C8A7F9 else
    if l == 4 then 0xB602C312 else if l == 5 then 0x44694011 else if l == 6 then 0x5739B3E5 else if l == 7 then 0xA55230E6 else
    if l == 8 then 0xFB410CC2 else if l == 9 then 0x092A8FC1 else if l == 10 then 0x1A7A7C35 else if l == 11 then 0xE811FF36 else
    if l == 12 then 0x3CDB9BDD else if l == 13 then 0xCEB018DE else if l == 14 then 0xDDE0EB2A else 0x2F8B6829
  }

  function Row8(l: bv8): bv32
  {
    if l == 0 then 0x82F63B78 else if l == 1 then 0x709DB87B else if l == 2 then 0x63CD4B8F else if l == 3 then 0x91A6C88C else
    if l == 4 then 0x456CAC67 else if l == 5 then 0xB7072F64 else if l == 6 then 0xA457DC90 else if l == 7 then 0x563C5F93 else
    if l == 8 then 0x082F63B7 else if l == 9 then 0xFA44E0B4 else if l == 10 then 0xE9141340 else if l == 11 then 0x1B7F9043 else
    if l == 12 then 0xCFB5F4A8 else if l == 13 then 0x3DDE77AB else if l == 14 then 0x2E8E845F else 0xDCE5075C
  }

  function Row9(l: bv8): bv32
  {
    if l == 0 then 0x92A8FC17 else if l == 1 then 0x60C37F14 else if l == 2 then 0x73938CE0 else if l == 3 then 0x81F80FE3 else
    if l == 4 then 0x55326B08 else if l == 5 then 0xA759E80B else if l == 6 then 0xB4091BFF else if l == 7 then 0x466298FC else
    if l == 8 then 0x1871A4D8 else if l == 9 then 0xEA1A27DB else if l == 10 then 0xF94AD42F else if l == 11 then 0x0B21572C else
    if l == 12 then 0xDFEB33C7 else if l == 13 then 0x2D80B0C4 else if l == 14 then 0x3ED04330 else 0xCCBBC033
  }

  function RowA(l: bv8): bv32
  {
    if l == 0 then 0xA24BB5A6 else if l == 1 then 0x502036A5 else if l == 2 then 0x4370C551 else if l == 3 then 0xB11B4652 else
    if l == 4 then 0x65D122B9 else if l == 5 then 0x97BAA1BA else if l == 6 then 0x84EA524E else if l == 7 then 0x7681D14D else
    if l == 8 then 0x2892ED69 else if l == 9 then 0xDAF96E6A else if l == 10 then 0xC9A99D9E else if l == 11 then 0x3BC21E9D else
    if l == 12 then 0xEF087A76 else if l == 13 then 0x1D63F975 else if l == 14 then 0x0E330A81 else 0xFC588982
  }

  function RowB(l: bv8): bv32
  {
    if l == 0 then 0xB21572C9 else if l == 1 then 0x407EF1CA else if l == 2 then 0x532E023E else if l == 3 then 0xA145813D else
    if l == 4 then 0x758FE5D6 else if l == 5 then 0x87E466D5 else if l == 6 then 0x94B49521 else if l == 7 then 0x66DF1622 else
    if l == 8 then 0x38CC2A06 else if l == 9 then 0xCAA7A905 else if l == 10 then 0xD9F75AF1 else if l == 11 then 0x2B9CD9F2 else
    if l == 12 then 0xFF56BD19 else if l == 13 then 0x0D3D3E1A else if l == 14 then 0x1E6DCDEE else 0xEC064EED
  }

  function RowC(l: bv8): bv32
  {
    if l == 0 then 0xC38D26C4 else if l == 1 then 0x31E6A5C7 else if l == 2 then 0x22B65633 else if l == 3 then 0xD0DDD530 else
    if l == 4 then 0x0417B1DB else if l == 5 then 0xF67C32D8 else if l == 6 then 0xE52CC12C else if l == 7 then 0x1747422F else
    if l == 8 then 0x49547E0B else if l == 9 then 0xBB3FFD08 else if l == 10 then 0xA86F0EFC else if l == 11 then 0x5A048DFF else
    if l == 12 then 0x8ECEE914 else if l == 13 then 0x7CA56A17 else if l == 14 then 0x6FF599E3 else 0x9D9E1AE0
  }

  function RowD(l: bv8): bv32
  {
    if l == 0 then 0xD3D3E1AB else if l == 1 then 0x21B862A8 else if l == 2 then 0x32E8915C else if l == 3 then 0xC083125F else
    if l == 4 then 0x144976B4 else if l == 5 then 0xE622F5B7 else if l == 6 then 0xF5720643 else if l == 7 then 0x07198540 else
    if l == 8 then 0x590AB964 else if l == 9 then 0xAB613A67 else if l == 10 then 0xB831C993 else if l == 11 then 0x4A5A4A90 else
    if l == 12 then 0x9E902E7B else if l == 13 then 0x6CFBAD78 else if l == 14 then 0x7FAB5E8C else 0x8DC0DD8F
  }

  function RowE(l: bv8): bv32
  {
    if l == 0 then 0xE330A81A else if l == 1 then 0x115B2B19 else if l == 2 then 0x020BD8ED else if l == 3 then 0xF0605BEE else
    if l == 4 then 0x24AA3F05 else if l == 5 then 0xD6C1BC06 else if l == 6 then 0xC5914FF2 else if l == 7 then 0x37FACCF1 else
    if l == 8 then 0x69E9F0D5 else if l == 9 then 0x9B8273D6 else if l == 10 then 0x88D28022 else if l == 11 then 0x7AB90321 else
    if l == 12 then 0xAE7367CA else if l == 13 then 0x5C18E4C9 else if l == 14 then 0x4F48173D else 0xBD23943E
  }

  function RowF(l: bv8): bv32
  {
    if l == 0 then 0xF36E6F75 else if l == 1 then 0x0105EC76 else if l == 2 then 0x12551F82 else if l == 3 then 0xE03E9C81 else
    if l == 4 then 0x34F4F86A else if l == 5 then 0xC69F7B69 else if l == 6 then 0xD5CF889D else if l == 7 then 0x27A40B9E else
    if l == 8 then 0x79B737BA else if l == 9 then 0x8BDCB4B9 else if l == 10 then 0x988C474D else if l == 11 then 0x6AE7C44E else
    if l == 12 then 0xBE2DA0A5 else if l == 13 then 0x4C4623A6 else if l == 14 then 0x5F16D052 else 0xAD7D5351
  }

  /** The table of feedback terms, by row (high half of the index) and column (low half). */
  function Entry(x: bv8): bv32
  {
    var l := x & 0x0F;
    match x >> 4
    case 0 => Row0(l)
    case 1 => Row1(l)
    case 2 => Row2(l)
    case 3 => Row3(l)
    case 4 => Row4(l)
    case 5 => Row5(l)
    case 6 => Row6(l)
    case 7 => Row7(l)
    case 8 => Row8(l)
    case 9 => Row9(l)
    case 10 => RowA(l)
    case 11 => RowB(l)
    case 12 => RowC(l)
    case 13 => RowD(l)
    case 14 => RowE(l)
    case _ => RowF(l)
  }

  // ----- the shift register is linear, one-to-one, and shifts zeros out -----

  lemma {:induction false} XorShift(x: bv32, y: bv32)
    ensures (x ^ y) >> 1 == (x >> 1) ^ (y >> 1)
  {
  }

  lemma {:induction false} XorLowBit(x: bv32, y: bv32)
    ensures (x ^ y) & 1 == (x & 1) ^ (y & 1) && (x & 1 == 0 || x & 1 == 1) && (y & 1 == 0 || y & 1 == 1)
  {
  }

  lemma {:induction false} XorAlgebra(x: bv32, y: bv32, p: bv32)
    ensures (x ^ p) ^ y == (x ^ y) ^ p && x ^ (y ^ p) == (x ^ y) ^ p && (x ^ p) ^ (y ^ p) == x ^ y
  {
  }

  lemma {:induction false} ShiftLinear(x: bv32, y: bv32)
    ensures Shift(x ^ y) == Shift(x) ^ Shift(y)
  {
    XorShift(x, y);
    XorLowBit(x, y);
    var a, b := x >> 1, y >> 1;
    XorAlgebra(a, b, POLY);
    if x & 1 == 1 {
      if y & 1 == 1 {
      } else {
      }
    } else {
      if y & 1 == 1 {
      } else {
      }
    }
  }

  /** f respects the operation g. */
  ghost predicate Linear<W(!new)>(f: W -> W, g: (W, W) -> W)
  {
    forall x, y :: f(g(x, y)) == g(f(x), f(y))
  }

  ghost predicate OneToOne<W(!new)>(f: W -> W)
  {
    forall x, y :: f(x) == f(y) ==> x == y
  }

  lemma {:induction false} LinearTwice<W(!new)>(f: W -> W, h: W -> W, g: (W, W) -> W)
    requires Linear(f, g) && forall x :: h(x) == f(f(x))
    ensures Linear(h, g)
  {
  }

  lemma {:induction false} OneToOneTwice<W(!new)>(f: W -> W, h: W -> W)
    requires OneToOne(f) && forall x :: h(x) == f(f(x))
    ensures OneToOne(h)
  {
    forall x, y | h(x) == h(y) ensures x == y {
      assert f(f(x)) == f(f(y));
    }
  }

  function Xor(x: bv32, y: bv32): bv32 { x ^ y }

  lemma {:induction false} EightLinear()
    ensures Linear(Eight, Xor)
  {
    assert Linear(Shift, Xor) by {
      forall x, y ensures Shift(Xor(x, y)) == Xor(Shift(x), Shift(y)) { ShiftLinear(x, y); }
    }
    LinearTwice(Shift, Two, Xor);
    LinearTwice(Two, Four, Xor);
    LinearTwice(Four, Eight, Xor);
  }

  lemma {:induction false} ShiftOneToOne(x: bv32, y: bv32)
    requires Shift(x) == Shift(y)
    ensures x == y
  {
  }

  lemma {:induction false} EightOneToOne()
    ensures OneToOne(Eight)
  {
    assert OneToOne(Shift) by {
      forall x, y | Shift(x) == Shift(y) ensures x == y { ShiftOneToOne(x, y); }
    }
    OneToOneTwice(Shift, Two);
    OneToOneTwice(Two, Four);
    OneToOneTwice(Four, Eight);
  }

  /** Zeros feed nothing back: eight of them are just shifted out. */
  ghost predicate Drops(f: bv32 -> bv32)
  {
    forall x :: x & 0xFF == 0 ==> f(x) == x >> 8
  }

  lemma {:induction false} EightDrops()
    ensures Drops(Eight)
  {
    forall x: bv32 | x & 0xFF == 0 ensures Eight(x) == x >> 8 { ZerosDrop(x); }
  }

  lemma {:induction false} ZerosDrop(x: bv32)
    requires x & 0xFF == 0
    ensures Eight(x) == x >> 8
  {
  }

  // ----- the table computes the checksum -----

  function Low(x: bv32): bv32 { x & 0xFF }

  function High(x: bv32): bv32 { x & 0xFFFF_FF00 }

  function Down(x: bv32): bv32 { x >> 8 }

  lemma {:induction false} LowAndHigh(x: bv32)
    ensures Xor(Low(x), High(x)) == x && High(x) & 0xFF == 0 && High(x) >> 8 == Down(x)
  {
  }

  function Enter(b: bv8): bv32 { b as bv32 }

  function LowByte(x: bv32): bv8 { (x & 0xFF) as bv8 }

  lemma {:induction false} EnterLow()
    ensures forall c, b :: Down(Xor(c, Enter(b))) == Down(c)
  {
  }

  lemma {:induction false} LowByteIs()
    ensures forall x :: Enter(LowByte(x)) == Low(x)
  {
  }

  /** Only the low byte feeds back; the rest is shifted. */
  ghost predicate FeedsBack<W(!new)>(f: W -> W, g: (W, W) -> W, low: W -> W, down: W -> W)
  {
    forall x :: f(x) == g(f(low(x)), down(x))
  }

  lemma {:induction false} PartsFeedBack<W(!new)>(f: W -> W, g: (W, W) -> W, low: W -> W, high: W -> W, down: W -> W)
    requires Linear(f, g) && (forall x :: g(low(x), high(x)) == x) && forall x :: f(high(x)) == down(x)
    ensures FeedsBack(f, g, low, down)
  {
    forall x ensures f(x) == g(f(low(x)), down(x)) {
      assert f(g(low(x), high(x))) == g(f(low(x)), f(high(x)));
    }
  }

  lemma {:induction false} LowFeedsBack(f: bv32 -> bv32)
    requires Linear(f, Xor) && Drops(f)
    ensures FeedsBack(f, Xor, Low, Down)
  {
    forall x ensures Xor(Low(x), High(x)) == x { LowAndHigh(x); }
    forall x ensures f(High(x)) == Down(x) { LowAndHigh(x); }
    PartsFeedBack(f, Xor, Low, High, Down);
  }

  /** One byte of the checksum f, through the table t. */
  ghost predicate ByTable<W(!new), B(!new)>(f: (W, B) -> W, t: B -> W, g: (W, W) -> W, down: W -> W, enter: B -> W,
          byte: W -> B)
  {
    forall c, b :: f(c, b) == g(t(byte(g(c, enter(b)))), down(c))
  }

  lemma {:induction false} TableOf<W(!new), B(!new)>(e: W -> W, f: (W, B) -> W, t: B -> W, g: (W, W) -> W,
          low: W -> W, down: W -> W, enter: B -> W, byte: W -> B)
    requires FeedsBack(e, g, low, down) && (forall c, b :: f(c, b) == e(g(c, enter(b)))) && (forall b :: t(b) == e(enter(b)))
    requires (forall c, b :: down(g(c, enter(b))) == down(c)) && forall x :: enter(byte(x)) == low(x)
    ensures ByTable(f, t, g, down, enter, byte)
  {
    forall c, b ensures f(c, b) == g(t(byte(g(c, enter(b)))), down(c)) {
      var x := g(c, enter(b));
      assert e(x) == g(e(low(x)), down(x));
      assert t(byte(x)) == e(enter(byte(x)));
    }
  }

  // ----- the table holds what eight steps make of its index -----

  /** What eight steps make of each bit of a byte. */
  ghost predicate PowersOf(f: bv32 -> bv32)
  {
    && f(0) == 0
    && f(0x01) == 0xF26B8303
    && f(0x02) == 0xE13B70F7
    && f(0x04) == 0xC79A971F
    && f(0x08) == 0x8AD958CF
    && f(0x10) == 0x105EC76F
    && f(0x20) == 0x20BD8EDE
    && f(0x40) == 0x417B1DBC
    && f(0x80) == 0x82F63B78
  }

  lemma {:induction false} Powers()
    ensures PowersOf(Eight)
  {
  }

  function Part(x: bv8, bit: bv8, term: bv32): bv32 { if x & bit == 0 then 0 else term }

  /** The sum of the terms of the bits of a byte: the low half and the high half. */
  function LowTerms(x: bv8): bv32
  {
    (Part(x, 1, 0xF26B8303) ^ Part(x, 2, 0xE13B70F7)) ^ (Part(x, 4, 0xC79A971F) ^ Part(x, 8, 0x8AD958CF))
  }

  function HighTerms(x: bv8): bv32
  {
    (Part(x, 0x10, 0x105EC76F) ^ Part(x, 0x20, 0x20BD8EDE)) ^ (Part(x, 0x40, 0x417B1DBC) ^ Part(x, 0x80, 0x82F63B78))
  }

  lemma {:induction false} OneBit(x: bv8, bit: bv8)
    requires bit & (bit - 1) == 0
    ensures x & bit == 0 || x & bit == bit
  {
  }

  lemma {:induction false} PartIs(f: bv32 -> bv32, x: bv8, bit: bv8, term: bv32)
    requires bit & (bit - 1) == 0 && f(0) == 0 && f(bit as bv32) == term
    ensures f((x & bit) as bv32) == Part(x, bit, term)
  {
    OneBit(x, bit);
  }

  function XorFour(a: bv32, b: bv32, c: bv32, d: bv32): bv32 { Xor(Xor(a, b), Xor(c, d)) }

  function LowBits(x: bv8): bv32 { XorFour((x & 1) as bv32, (x & 2) as bv32, (x & 4) as bv32, (x & 8) as bv32) }

  function HighBits(x: bv8): bv32 { XorFour((x & 0x10) as bv32, (x & 0x20) as bv32, (x & 0x40) as bv32,
          (x & 0x80) as bv32) }

  lemma {:induction false} SumOfBits(x: bv8)
    ensures x as bv32 == Xor(LowBits(x), HighBits(x))
  {
  }

  lemma {:induction false} LinearFour<W(!new)>(f: W -> W, g: (W, W) -> W, a: W, b: W, c: W, d: W)
    requires Linear(f, g)
    ensures f(g(g(a, b), g(c, d))) == g(g(f(a), f(b)), g(f(c), f(d)))
  {
    assert f(g(g(a, b), g(c, d))) == g(f(g(a, b)), f(g(c, d)));
  }

  lemma {:induction false} LowAre(f: bv32 -> bv32, x: bv8)
    requires Linear(f, Xor) && PowersOf(f)
    ensures f(LowBits(x)) == LowTerms(x)
  {
    PartIs(f, x, 1, 0xF26B8303);
    PartIs(f, x, 2, 0xE13B70F7);
    PartIs(f, x, 4, 0xC79A971F);
    PartIs(f, x, 8, 0x8AD958CF);
    LinearFour(f, Xor, (x & 1) as bv32, (x & 2) as bv32, (x & 4) as bv32, (x & 8) as bv32);
  }

  lemma {:induction false} HighAre(f: bv32 -> bv32, x: bv8)
    requires Linear(f, Xor) && PowersOf(f)
    ensures f(HighBits(x)) == HighTerms(x)
  {
    PartIs(f, x, 0x10, 0x105EC76F);
    PartIs(f, x, 0x20, 0x20BD8EDE);
    PartIs(f, x, 0x40, 0x417B1DBC);
    PartIs(f, x, 0x80, 0x82F63B78);
    LinearFour(f, Xor, (x & 0x10) as bv32, (x & 0x20) as bv32, (x & 0x40) as bv32, (x & 0x80) as bv32);
  }

  lemma {:induction false} TermsAre(f: bv32 -> bv32, x: bv8)
    requires Linear(f, Xor) && PowersOf(f)
    ensures f(x as bv32) == Xor(LowTerms(x), HighTerms(x))
  {
    SumOfBits(x);
    LowAre(f, x);
    HighAre(f, x);
    assert f(Xor(LowBits(x), HighBits(x))) == Xor(f(LowBits(x)), f(HighBits(x)));
  }

  /** A row of the table adds the term of its high half to the terms of the column. */
  lemma {:induction false} Row0Is(l: bv8)
    requires l < 16
    ensures Row0(l) == LowTerms(l) ^ 0x00000000
  {
  }

  lemma {:induction false} Row1Is(l: bv8)
    requires l < 16
    ensures Row1(l) == LowTerms(l) ^ 0x105EC76F
  {
  }

  lemma {:induction false} Row2Is(l: bv8)
    requires l < 16
    ensures Row2(l) == LowTerms(l) ^ 0x20BD8EDE
  {
  }

  lemma {:induction false} Row3Is(l: bv8)
    requires l < 16
    ensures Row3(l) == LowTerms(l) ^ 0x30E349B1
  {
  }

  lemma {:induction false} Row4Is(l: bv8)
    requires l < 16
    ensures Row4(l) == LowTerms(l) ^ 0x417B1DBC
  {
  }

  lemma {:induction false} Row5Is(l: bv8)
    requires l < 16
    ensures Row5(l) == LowTerms(l) ^ 0x5125DAD3
  {
  }

  lemma {:induction false} Row6Is(l: bv8)
    requires l < 16
    ensures Row6(l) == LowTerms(l) ^ 0x61C69362
  {
  }

  lemma {:induction false} Row7Is(l: bv8)
    requires l < 16
    ensures Row7(l) == LowTerms(l) ^ 0x7198540D
  {
  }

  lemma {:induction false} Row8Is(l: bv8)
    requires l < 16
    ensures Row8(l) == LowTerms(l) ^ 0x82F63B78
  {
  }

  lemma {:induction false} Row9Is(l: bv8)
    requires l < 16
    ensures Row9(l) == LowTerms(l) ^ 0x92A8FC17
  {
  }

  lemma {:induction false} RowAIs(l: bv8)
    requires l < 16
    ensures RowA(l) == LowTerms(l) ^ 0xA24BB5A6
  {
  }

  lemma {:induction false} RowBIs(l: bv8)
    requires l < 16
    ensures RowB(l) == LowTerms(l) ^ 0xB21572C9
  {
  }

  lemma {:induction false} RowCIs(l: bv8)
    requires l < 16
    ensures RowC(l) == LowTerms(l) ^ 0xC38D26C4
  {
  }

  lemma {:induction false} RowDIs(l: bv8)
    requires l < 16
    ensures RowD(l) == LowTerms(l) ^ 0xD3D3E1AB
  {
  }

  lemma {:induction false} RowEIs(l: bv8)
    requires l < 16
    ensures RowE(l) == LowTerms(l) ^ 0xE330A81A
  {
  }

  lemma {:induction false} RowFIs(l: bv8)
    requires l < 16
    ensures RowF(l) == LowTerms(l) ^ 0xF36E6F75
  {
  }

  lemma {:induction false} Halves(x: bv8)
    ensures LowTerms(x) == LowTerms(x & 0x0F) && x & 0x0F < 16
    ensures HighTerms(x) == HighTerms(x & 0xF0) && x >> 4 < 16 && x & 0xF0 == (x >> 4) << 4
  {
  }

  lemma {:induction false} HighIs(k: bv8)
    requires k < 16
    ensures HighTerms(k << 4) == match k
            case 0 => 0x00000000
            case 1 => 0x105EC76F
            case 2 => 0x20BD8EDE
            case 3 => 0x30E349B1
            case 4 => 0x417B1DBC
            case 5 => 0x5125DAD3
            case 6 => 0x61C69362
            case 7 => 0x7198540D
            case 8 => 0x82F63B78
            case 9 => 0x92A8FC17
            case 10 => 0xA24BB5A6
            case 11 => 0xB21572C9
            case 12 => 0xC38D26C4
            case 13 => 0xD3D3E1AB
            case 14 => 0xE330A81A
            case _ => 0xF36E6F75
  {
  }

  lemma {:induction false} EntryTerms(x: bv8)
    ensures Entry(x) == Xor(LowTerms(x), HighTerms(x))
  {
    var l, k := x & 0x0F, x >> 4;
    Halves(x);
    HighIs(k);
    match k
    case 0 => Row0Is(l);
    case 1 => Row1Is(l);
    case 2 => Row2Is(l);
    case 3 => Row3Is(l);
    case 4 => Row4Is(l);
    case 5 => Row5Is(l);
    case 6 => Row6Is(l);
    case 7 => Row7Is(l);
    case 8 => Row8Is(l);
    case 9 => Row9Is(l);
    case 10 => RowAIs(l);
    case 11 => RowBIs(l);
    case 12 => RowCIs(l);
    case 13 => RowDIs(l);
    case 14 => RowEIs(l);
    case _ => RowFIs(l);
  }

  lemma {:induction false} TableIs(f: bv32 -> bv32, t: bv8 -> bv32)
    requires Linear(f, Xor) && PowersOf(f) && forall x :: t(x) == Xor(LowTerms(x), HighTerms(x))
    ensures forall x :: t(x) == f(Enter(x))
  {
    forall x ensures t(x) == f(Enter(x)) { TermsAre(f, x); }
  }

  /** Every feedback term is what eight steps make of its index. */
  lemma {:induction false} EntriesAre()
    ensures forall b :: Entry(b) == Eight(Enter(b))
  {
    EightLinear();
    Powers();
    forall x ensures Entry(x) == Xor(LowTerms(x), HighTerms(x)) { EntryTerms(x); }
    TableIs(Eight, Entry);
  }

  lemma {:induction false} StepEnters()
    ensures forall c, b :: Step(c, b) == Eight(Xor(c, Enter(b)))
  {
  }

  /** One byte by table is one byte bit by bit. */
  lemma {:induction false} TableStep()
    ensures ByTable(Step, Entry, Xor, Down, Enter, LowByte)
  {
    EightLinear();
    EightDrops();
    LowFeedsBack(Eight);
    EntriesAre();
    StepEnters();
    EnterLow();
    LowByteIs();
    TableOf(Eight, Step, Entry, Xor, Low, Down, Enter, LowByte);
  }

  method FoldTable(t: bv8 -> bv32, ghost f: (bv32, bv8) -> bv32, start: bv32, buf: seq<bv8>) returns (crc: bv32)
    requires ByTable(f, t, Xor, Down, Enter, LowByte)
    ensures crc == Fold(f, start, buf)
  {
    crc := start;
    var i := 0;
    assert buf[0..] == buf;
    while i < |buf|
      invariant 0 <= i <= |buf| && Fold(f, start, buf) == Fold(f, crc, buf[i..])
    {
      assert buf[i..][1..] == buf[i + 1..];
      crc := Xor(t(LowByte(Xor(crc, Enter(buf[i])))), Down(crc));
      i := i + 1;
    }
  }

  /** The checksum of a buffer, byte by byte through the table. */
  method Compute(start: bv32, buf: seq<bv8>) returns (crc: bv32)
    ensures crc == Crc(start, buf)
  {
    TableStep();
    crc := FoldTable(Entry, Step, start, buf);
  }

  lemma {:induction false} InParts<W, B>(f: (W, B) -> W, c: W, a: seq<B>, b: seq<B>)
    ensures Fold(f, c, a + b) == Fold(f, Fold(f, c, a), b)
    decreases |a|
  {
    if a == [] {
      assert a + b == b;
    } else {
      assert (a + b)[1..] == a[1..] + b;
      InParts(f, f(c, a[0]), a[1..], b);
    }
  }

  /** The checksum of a buffer is that of its second part, started from that of its first part. */
  lemma {:induction false} CrcInParts(c: bv32, a: seq<bv8>, b: seq<bv8>)
    ensures Crc(c, a + b) == Crc(Crc(c, a), b)
  {
    InParts(Step, c, a, b);
  }

  // ----- errors that the checksum detects -----

  /** Registers that differ stay different, whatever follows. */
  ghost predicate Keeps<W(!new), B(!new)>(f: (W, B) -> W)
  {
    forall x, y, b :: f(x, b) == f(y, b) ==> x == y
  }

  /** Four bytes can be told from the register after them. */
  ghost predicate Tells<W(!new), B(!new)>(f: (W, B) -> W)
  {
    forall c, a0, a1, a2, a3, b0, b1, b2, b3 ::
      f(f(f(f(c, a0), a1), a2), a3) == f(f(f(f(c, b0), b1), b2), b3) ==> a0 == b0 && a1 == b1 && a2 == b2 && a3 == b3
  }

  lemma {:induction false} KeepsAll<W(!new), B(!new)>(f: (W, B) -> W, x: W, y: W, s: seq<B>)
    requires Keeps(f) && Fold(f, x, s) == Fold(f, y, s)
    ensures x == y
    decreases |s|
  {
    if s != [] {
      KeepsAll(f, f(x, s[0]), f(y, s[0]), s[1..]);
    }
  }

  lemma {:induction false} FoldFour<W, B>(f: (W, B) -> W, c: W, s: seq<B>)
    requires |s| == 4
    ensures Fold(f, c, s) == f(f(f(f(c, s[0]), s[1]), s[2]), s[3])
  {
    var t := s[1..];
    var u := t[1..];
    var v := u[1..];
    assert t[0] == s[1] && u[0] == s[2] && v[0] == s[3] && v[1..] == [];
    assert Fold(f, f(c, s[0]), t) == Fold(f, f(f(c, s[0]), s[1]), u);
    assert Fold(f, f(f(c, s[0]), s[1]), u) == Fold(f, f(f(f(c, s[0]), s[1]), s[2]), v);
  }

  lemma {:induction false} TellsBurst<W(!new), B(!new)>(f: (W, B) -> W, zero: B, c: W, u: seq<B>, v: seq<B>)
    requires Keeps(f) && Tells(f) && |u| == |v| <= 4 && Fold(f, c, u) == Fold(f, c, v)
    ensures u == v
    decreases 4 - |u|
  {
    if |u| == 4 {
      FoldFour(f, c, u);
      FoldFour(f, c, v);
    } else {
      InParts(f, c, u, [zero]);
      InParts(f, c, v, [zero]);
      TellsBurst(f, zero, c, u + [zero], v + [zero]);
      assert u == (u + [zero])[..|u|] && v == (v + [zero])[..|u|];
    }
  }

  lemma {:induction false} BurstTold<W(!new), B(!new)>(f: (W, B) -> W, zero: B, c: W, p: seq<B>, u: seq<B>, v: seq<B>,
          s: seq<B>)
    requires Keeps(f) && Tells(f) && |u| == |v| <= 4 && u != v
    ensures Fold(f, c, p + (u + s)) != Fold(f, c, p + (v + s))
  {
    var d := Fold(f, c, p);
    InParts(f, c, p, u + s);
    InParts(f, c, p, v + s);
    InParts(f, d, u, s);
    InParts(f, d, v, s);
    if Fold(f, c, p + (u + s)) == Fold(f, c, p + (v + s)) {
      KeepsAll(f, Fold(f, d, u), Fold(f, d, v), s);
      TellsBurst(f, zero, d, u, v);
    }
  }

  /** What enters after a byte could have entered before it, one byte higher. */
  ghost predicate Absorbs<W(!new), B(!new)>(f: W -> W, g: (W, W) -> W, h: (nat, B) -> W)
  {
    forall x, i: nat, b | i < 3 :: g(f(x), h(i, b)) == f(g(x, h(i + 1, b)))
  }

  ghost predicate Group<W(!new)>(g: (W, W) -> W)
  {
    && (forall x, y, z :: g(g(x, y), z) == g(x, g(y, z)))
    && (forall x, y, z :: g(x, y) == g(x, z) ==> y == z)
    && (forall x, y, z :: g(y, x) == g(z, x) ==> y == z)
  }

  /** Four bytes as one word, the first of them lowest. */
  function Pack<W, B>(g: (W, W) -> W, h: (nat, B) -> W, b0: B, b1: B, b2: B, b3: B): W
  {
    g(g(g(h(0, b0), h(1, b1)), h(2, b2)), h(3, b3))
  }

  ghost predicate Packs<W, B(!new)>(g: (W, W) -> W, h: (nat, B) -> W)
  {
    forall a0, a1, a2, a3, b0, b1, b2, b3 ::
      Pack(g, h, a0, a1, a2, a3) == Pack(g, h, b0, b1, b2, b3) ==> a0 == b0 && a1 == b1 && a2 == b2 && a3 == b3
  }

  /** Four bytes go through the register as one word. */
  lemma {:induction false} FourAsWord<W(!new), B(!new)>(f: W -> W, g: (W, W) -> W, h: (nat, B) -> W, c: W, b0: B,
          b1: B, b2: B, b3: B)
    requires Absorbs(f, g, h) && Group(g)
    ensures f(g(f(g(f(g(f(g(c, h(0, b0))), h(0, b1))), h(0, b2))), h(0, b3))) == f(f(f(f(g(c, Pack(g, h, b0, b1, b2, b3))))))
  {
    var x0 := g(c, h(0, b0));
    var x1 := g(x0, h(1, b1));
    var x2 := g(x1, h(2, b2));
    var x3 := g(x2, h(3, b3));
    assert g(f(x0), h(0, b1)) == f(x1);
    assert g(f(f(x1)), h(0, b2)) == f(f(x2)) by {
      assert g(f(f(x1)), h(0, b2)) == f(g(f(x1), h(1, b2)));
    }
    assert g(f(f(f(x2))), h(0, b3)) == f(f(f(x3))) by {
      assert g(f(f(f(x2))), h(0, b3)) == f(g(f(f(x2)), h(1, b3)));
      assert g(f(f(x2)), h(1, b3)) == f(g(f(x2), h(2, b3)));
    }
  }

  lemma {:induction false} RegisterTells<W(!new), B(!new)>(e: W -> W, g: (W, W) -> W, h: (nat, B) -> W, f: (W, B) -> W)
    requires Absorbs(e, g, h) && Group(g) && Packs(g, h) && OneToOne(e)
    requires forall c, b :: f(c, b) == e(g(c, h(0, b)))
    ensures Keeps(f) && Tells(f)
  {
    forall c, a0, a1, a2, a3, b0, b1, b2, b3 | f(f(f(f(c, a0), a1), a2), a3) == f(f(f(f(c, b0), b1), b2), b3)
      ensures a0 == b0 && a1 == b1 && a2 == b2 && a3 == b3
    {
      FourAsWord(e, g, h, c, a0, a1, a2, a3);
      FourAsWord(e, g, h, c, b0, b1, b2, b3);
      var x, y := g(c, Pack(g, h, a0, a1, a2, a3)), g(c, Pack(g, h, b0, b1, b2, b3));
      assert e(e(e(e(x)))) == e(e(e(e(y))));
    }
  }

  /** A byte at one of the four places of a word. */
  function At(i: nat, b: bv8): bv32
  {
    var w := b as bv32;
    if i == 0 then w else if i == 1 then w << 8 else if i == 2 then w << 16 else w << 24
  }

  lemma {:induction false} AtPacks(a0: bv8, a1: bv8, a2: bv8, a3: bv8, b0: bv8, b1: bv8, b2: bv8, b3: bv8)
    requires Xor(Xor(Xor(At(0, a0), At(1, a1)), At(2, a2)), At(3, a3)) == Xor(Xor(Xor(At(0, b0), At(1, b1)), At(2, b2)), At(3, b3))
    ensures a0 == b0 && a1 == b1 && a2 == b2 && a3 == b3
  {
  }

  lemma {:induction false} AtRises(i: nat, b: bv8)
    requires i < 3
    ensures At(i + 1, b) & 0xFF == 0 && At(i + 1, b) >> 8 == At(i, b)
  {
  }

  lemma {:induction false} XorAssociates(x: bv32, y: bv32, z: bv32)
    ensures Xor(Xor(x, y), z) == Xor(x, Xor(y, z))
  {
  }

  lemma {:induction false} XorCancels(x: bv32, y: bv32, z: bv32)
    requires Xor(x, y) == Xor(x, z) || Xor(y, x) == Xor(z, x)
    ensures y == z
  {
  }

  lemma {:induction false} XorGroup()
    ensures Group(Xor)
  {
    forall x, y, z ensures Xor(Xor(x, y), z) == Xor(x, Xor(y, z)) { XorAssociates(x, y, z); }
    forall x, y, z | Xor(x, y) == Xor(x, z) ensures y == z { XorCancels(x, y, z); }
    forall x, y, z | Xor(y, x) == Xor(z, x) ensures y == z { XorCancels(x, y, z); }
  }

  lemma {:induction false} XorPacks()
    ensures Packs(Xor, At)
  {
    forall a0, a1, a2, a3, b0, b1, b2, b3 | Pack(Xor, At, a0, a1, a2, a3) == Pack(Xor, At, b0, b1, b2, b3)
      ensures a0 == b0 && a1 == b1 && a2 == b2 && a3 == b3
    {
      AtPacks(a0, a1, a2, a3, b0, b1, b2, b3);
    }
  }

  lemma {:induction false} LinearAbsorbs<W(!new), B(!new)>(f: W -> W, g: (W, W) -> W, at: (nat, B) -> W)
    requires Linear(f, g) && forall i: nat, b :: i < 3 ==> f(at(i + 1, b)) == at(i, b)
    ensures Absorbs(f, g, at)
  {
  }

  lemma {:induction false} DropsFall(f: bv32 -> bv32)
    requires Drops(f)
    ensures forall i: nat, b :: i < 3 ==> f(At(i + 1, b)) == At(i, b)
  {
    forall i: nat, b | i < 3 ensures f(At(i + 1, b)) == At(i, b) { AtRises(i, b); }
  }

  lemma {:induction false} StepIs()
    ensures forall c, b :: Step(c, b) == Eight(Xor(c, At(0, b)))
  {
  }

  lemma {:induction false} StepTells()
    ensures Keeps(Step) && Tells(Step)
  {
    EightLinear();
    EightDrops();
    EightOneToOne();
    DropsFall(Eight);
    LinearAbsorbs(Eight, Xor, At);
    XorGroup();
    XorPacks();
    StepIs();
    RegisterTells(Eight, Xor, At, Step);
  }

  /** Buffers of the same length that differ only inside four consecutive bytes have different
      checksums. */
  lemma {:induction false} BurstDetected(c: bv32, p: seq<bv8>, u: seq<bv8>, v: seq<bv8>, s: seq<bv8>)
    requires |u| == |v| <= 4 && u != v
    ensures Crc(c, p + (u + s)) != Crc(c, p + (v + s))
  {
    StepTells();
    BurstTold(Step, 0, c, p, u, v, s);
  }
}
