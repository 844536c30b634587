/**
 CRC-32 as the boot loader computes it: one table lookup per byte, with the register
 inverted before and after.  The reference is the definition of section 8 of RFC 1952,
 one shift/xor step of polynomial 0xEDB88320 per bit, least significant bit first.
 */
module Crc32 {
  import opened Common
  import opened LinearRegister

  // ----- The table of the source, sixteen entries to a row -----

  const ROW_0: seq<bv32> := [
    0x00000000, 0x77073096, 0xee0e612c, 0x990951ba, 0x076dc419, 0x706af48f, 0xe963a535, 0x9e6495a3,
    0x0edb8832, 0x79dcb8a4, 0xe0d5e91e, 0x97d2d988, 0x09b64c2b, 0x7eb17cbd, 0xe7b82d07, 0x90bf1d91
  ]
  const ROW_1: seq<bv32> := [
    0x1db71064, 0x6ab020f2, 0xf3b97148, 0x84be41de, 0x1adad47d, 0x6ddde4eb, 0xf4d4b551, 0x83d385c7,
    0x136c9856, 0x646ba8c0, 0xfd62f97a, 0x8a65c9ec, 0x14015c4f, 0x63066cd9, 0xfa0f3d63, 0x8d080df5
  ]
  const ROW_2: seq<bv32> := [
    0x3b6e20c8, 0x4c69105e, 0xd56041e4, 0xa2677172, 0x3c03e4d1, 0x4b04d447, 0xd20d85fd, 0xa50ab56b,
    0x35b5a8fa, 0x42b2986c, 0xdbbbc9d6, 0xacbcf940, 0x32d86ce3, 0x45df5c75, 0xdcd60dcf, 0xabd13d59
  ]
  const ROW_3: seq<bv32> := [
    0x26d930ac, 0x51de003a, 0xc8d75180, 0xbfd06116, 0x21b4f4b5, 0x56b3c423, 0xcfba9599, 0xb8bda50f,
    0x2802b89e, 0x5f058808, 0xc60cd9b2, 0xb10be924, 0x2f6f7c87, 0x58684c11, 0xc1611dab, 0xb6662d3d
  ]
  const ROW_4: seq<bv32> := [
    0x76dc4190, 0x01db7106, 0x98d220bc, 0xefd5102a, 0x71b18589, 0x06b6b51f, 0x9fbfe4a5, 0xe8b8d433,
    0x7807c9a2, 0x0f00f934, 0x9609a88e, 0xe10e9818, 0x7f6a0dbb, 0x086d3d2d, 0x91646c97, 0xe6635c01
  ]
  const ROW_5: seq<bv32> := [
    0x6b6b51f4, 0x1c6c6162, 0x856530d8, 0xf262004e, 0x6c0695ed, 0x1b01a57b, 0x8208f4c1, 0xf50fc457,
    0x65b0d9c6, 0x12b7e950, 0x8bbeb8ea, 0xfcb9887c, 0x62dd1ddf, 0x15da2d49, 0x8cd37cf3, 0xfbd44c65
  ]
  const ROW_6: seq<bv32> := [
    0x4db26158, 0x3ab551ce, 0xa3bc0074, 0xd4bb30e2, 0x4adfa541, 0x3dd895d7, 0xa4d1c46d, 0xd3d6f4fb,
    0x4369e96a, 0x346ed9fc, 0xad678846, 0xda60b8d0, 0x44042d73, 0x33031de5, 0xaa0a4c5f, 0xdd0d7cc9
  ]
  const ROW_7: seq<bv32> := [
    0x5005713c, 0x270241aa, 0xbe0b1010, 0xc90c2086, 0x5768b525, 0x206f85b3, 0xb966d409, 0xce61e49f,
    0x5edef90e, 0x29d9c998, 0xb0d09822, 0xc7d7a8b4, 0x59b33d17, 0x2eb40d81, 0xb7bd5c3b, 0xc0ba6cad
  ]
  const ROW_8: seq<bv32> := [
    0xedb88320, 0x9abfb3b6, 0x03b6e20c, 0x74b1d29a, 0xead54739, 0x9dd277af, 0x04db2615, 0x73dc1683,
    0xe3630b12, 0x94643b84, 0x0d6d6a3e, 0x7a6a5aa8, 0xe40ecf0b, 0x9309ff9d, 0x0a00ae27, 0x7d079eb1
  ]
  const ROW_9: seq<bv32> := [
    0xf00f9344, 0x8708a3d2, 0x1e01f268, 0x6906c2fe, 0xf762575d, 0x806567cb, 0x196c3671, 0x6e6b06e7,
    0xfed41b76, 0x89d32be0, 0x10da7a5a, 0x67dd4acc, 0xf9b9df6f, 0x8ebeeff9, 0x17b7be43, 0x60b08ed5
  ]
  const ROW_A: seq<bv32> := [
    0xd6d6a3e8, 0xa1d1937e, 0x38d8c2c4, 0x4fdff252, 0xd1bb67f1, 0xa6bc5767, 0x3fb506dd, 0x48b2364b,
    0xd80d2bda, 0xaf0a1b4c, 0x36034af6, 0x41047a60, 0xdf60efc3, 0xa867df55, 0x316e8eef, 0x4669be79
  ]
  const ROW_B: seq<bv32> := [
    0xcb61b38c, 0xbc66831a, 0x256fd2a0, 0x5268e236, 0xcc0c7795, 0xbb0b4703, 0x220216b9, 0x5505262f,
    0xc5ba3bbe, 0xb2bd0b28, 0x2bb45a92, 0x5cb36a04, 0xc2d7ffa7, 0xb5d0cf31, 0x2cd99e8b, 0x5bdeae1d
  ]
  const ROW_C: seq<bv32> := [
    0x9b64c2b0, 0xec63f226, 0x756aa39c, 0x026d930a, 0x9c0906a9, 0xeb0e363f, 0x72076785, 0x05005713,
    0x95bf4a82, 0xe2b87a14, 0x7bb12bae, 0x0cb61b38, 0x92d28e9b, 0xe5d5be0d, 0x7cdcefb7, 0x0bdbdf21
  ]
  const ROW_D: seq<bv32> := [
    0x86d3d2d4, 0xf1d4e242, 0x68ddb3f8, 0x1fda836e, 0x81be16cd, 0xf6b9265b, 0x6fb077e1, 0x18b74777,
    0x88085ae6, 0xff0f6a70, 0x66063bca, 0x11010b5c, 0x8f659eff, 0xf862ae69, 0x616bffd3, 0x166ccf45
  ]
  const ROW_E: seq<bv32> := [
    0xa00ae278, 0xd70dd2ee, 0x4e048354, 0x3903b3c2, 0xa7672661, 0xd06016f7, 0x4969474d, 0x3e6e77db,
    0xaed16a4a, 0xd9d65adc, 0x40df0b66, 0x37d83bf0, 0xa9bcae53, 0xdebb9ec5, 0x47b2cf7f, 0x30b5ffe9
  ]
  const ROW_F: seq<bv32> := [
    0xbdbdf21c, 0xcabac28a, 0x53b39330, 0x24b4a3a6, 0xbad03605, 0xcdd70693, 0x54de5729, 0x23d967bf,
    0xb3667a2e, 0xc4614ab8, 0x5d681b02, 0x2a6f2b94, 0xb40bbe37, 0xc30c8ea1, 0x5a05df1b, 0x2d02ef8d
  ]

  const ROWS: seq<seq<bv32>> := [
    ROW_0, ROW_1, ROW_2, ROW_3, ROW_4, ROW_5, ROW_6, ROW_7,
    ROW_8, ROW_9, ROW_A, ROW_B, ROW_C, ROW_D, ROW_E, ROW_F
  ]

  function Flatten(rows: seq<seq<bv32>>): seq<bv32> {
    if rows == [] then [] else rows[0] + Flatten(rows[1..])
  }

  const CRC32_TAB: seq<bv32> := Flatten(ROWS)

  // ----- The reference: one bit at a time -----

  /** One step of the division register: shift, and subtract the polynomial when a bit falls out. */
  function Step(x: bv32): bv32 {
    if x & 1 == 1 then 0xEDB88320 ^ (x >> 1) else x >> 1
  }

  function EightSteps(x: bv32): bv32 { Iterate(Step, x, 8) }

  function Xor(x: bv32, y: bv32): bv32 { x ^ y }

  /** The register after the bytes of `buf`, each byte added in and followed by `byteStep`. */
  function Register(byteStep: bv32 -> bv32, crc: bv32, buf: seq<bv8>): bv32
    decreases |buf|
  {
    if buf == [] then crc else Register(byteStep, byteStep(crc ^ (buf[0] as bv32)), buf[1..])
  }

  function Invert(x: bv32): bv32 { x ^ 0xFFFFFFFF }

  /** The bit-serial CRC-32 of section 8 of RFC 1952, continued from an earlier CRC `seed`. */
  function Crc(seed: bv32, buf: seq<bv8>): bv32 {
    Invert(Register(EightSteps, Invert(seed), buf))
  }

  // ----- What makes one table lookup a step of the register -----

  ghost predicate EntryIs(table: seq<bv32>, byteStep: bv32 -> bv32, i: bv8)
    requires |table| == 256
  {
    table[i as int] == byteStep(i as bv32)
  }

  /** `table` holds `byteStep` of every byte. */
  ghost predicate Tabulates(table: seq<bv32>, byteStep: bv32 -> bv32) {
    |table| == 256 && forall i: bv8 :: EntryIs(table, byteStep, i)
  }

  ghost predicate Shifts(byteStep: bv32 -> bv32, high: bv32) {
    high & 0xFF == 0 ==> byteStep(high) == high >> 8
  }

  /** What makes one lookup enough: the step is linear and only shifts the three high bytes. */
  ghost predicate SplitsAtLowByte(byteStep: bv32 -> bv32) {
    && Linear(byteStep, Xor)
    && forall high :: Shifts(byteStep, high)
  }

  function TableIndex(crc: bv32, b: bv8): bv8 { ((crc ^ (b as bv32)) & 0xFF) as bv8 }

  // ----- Every table entry is eight steps of its index -----

  function Sixteen<X>(f: bv8 -> X): (s: seq<X>)
    ensures |s| == 16
  {
    [f(0), f(1), f(2), f(3), f(4), f(5), f(6), f(7), f(8), f(9), f(10), f(11), f(12), f(13), f(14), f(15)]
  }

  function FeedbackEntry(high: bv8, low: bv8): bv32 { EightSteps(((high << 4) | low) as bv32) }

  function FeedbackRow(high: bv8): (r: seq<bv32>)
    ensures |r| == 16
  {
    Sixteen(low => FeedbackEntry(high, low))
  }

  function FeedbackTable(): seq<seq<bv32>> { Sixteen(high => FeedbackRow(high)) }

  lemma Row0Low(low: bv8)
    requires low < 4
    ensures 0 <= low as int < 16 && ROW_0[low as int] == FeedbackEntry(0, low)
  {
    match low { case 0 => case 1 => case 2 => case _ => }
  }

  lemma Row0Middle(low: bv8)
    requires 4 <= low < 8
    ensures 0 <= low as int < 16 && ROW_0[low as int] == FeedbackEntry(0, low)
  {
    match low { case 4 => case 5 => case 6 => case _ => }
  }

  lemma Row0High(low: bv8)
    requires 8 <= low < 16
    ensures 0 <= low as int < 16 && ROW_0[low as int] == FeedbackEntry(0, low)
  {
    match low { case 8 => case 9 => case 10 => case 11 => case 12 => case 13 => case 14 => case _ => }
  }

  lemma AllSixteen<X>(s: seq<X>, f: bv8 -> X)
    requires |s| == 16
    requires forall k: bv8 | k < 16 :: 0 <= k as int < 16 && s[k as int] == f(k)
    ensures s == Sixteen(f)
  {
    assert f(0) == s[0] && f(1) == s[1] && f(2) == s[2] && f(3) == s[3];
    assert f(4) == s[4] && f(5) == s[5] && f(6) == s[6] && f(7) == s[7];
    assert f(8) == s[8] && f(9) == s[9] && f(10) == s[10] && f(11) == s[11];
    assert f(12) == s[12] && f(13) == s[13] && f(14) == s[14] && f(15) == s[15];
  }

  lemma Row0()
    ensures ROW_0 == FeedbackRow(0)
  {
    forall low: bv8 | low < 16 ensures ROW_0[low as int] == FeedbackEntry(0, low) {
      if low < 4 { Row0Low(low); } else if low < 8 { Row0Middle(low); } else { Row0High(low); }
    }
    AllSixteen(ROW_0, low => FeedbackEntry(0, low));
  }

  lemma Row1() ensures ROW_1 == FeedbackRow(1) {}
  lemma Row2() ensures ROW_2 == FeedbackRow(2) {}
  lemma Row3() ensures ROW_3 == FeedbackRow(3) {}
  lemma Row4() ensures ROW_4 == FeedbackRow(4) {}
  lemma Row5() ensures ROW_5 == FeedbackRow(5) {}
  lemma Row6() ensures ROW_6 == FeedbackRow(6) {}
  lemma Row7() ensures ROW_7 == FeedbackRow(7) {}
  lemma Row8() ensures ROW_8 == FeedbackRow(8) {}
  lemma Row9() ensures ROW_9 == FeedbackRow(9) {}
  lemma RowA() ensures ROW_A == FeedbackRow(10) {}
  lemma RowB() ensures ROW_B == FeedbackRow(11) {}
  lemma RowC() ensures ROW_C == FeedbackRow(12) {}
  lemma RowD() ensures ROW_D == FeedbackRow(13) {}
  lemma RowE() ensures ROW_E == FeedbackRow(14) {}
  lemma RowF() ensures ROW_F == FeedbackRow(15) {}

  lemma RowsAreFeedback()
    ensures ROWS == FeedbackTable()
  {
    Row0(); Row1(); Row2(); Row3(); Row4(); Row5(); Row6(); Row7();
    Row8(); Row9(); RowA(); RowB(); RowC(); RowD(); RowE(); RowF();
  }

  lemma SixteenAt<X>(f: bv8 -> X, k: bv8)
    requires k < 16
    ensures 0 <= k as int < 16 && Sixteen(f)[k as int] == f(k)
  {
    match k {
      case 0 => case 1 => case 2 => case 3 => case 4 => case 5 => case 6 => case 7 =>
      case 8 => case 9 => case 10 => case 11 => case 12 => case 13 => case 14 => case _ =>
    }
  }

  lemma FeedbackAt(high: bv8, low: bv8)
    requires high < 16 && low < 16
    ensures 0 <= high as int < 16 && 0 <= low as int < 16
    ensures |FeedbackTable()| == 16 && |FeedbackTable()[high as int]| == 16
    ensures FeedbackTable()[high as int][low as int] == FeedbackEntry(high, low)
  {
    SixteenAt(h => FeedbackRow(h), high);
    SixteenAt(l => FeedbackEntry(high, l), low);
  }

  lemma {:induction false} FlattenAt(rows: seq<seq<bv32>>, q: nat, k: nat)
    requires forall r | 0 <= r < |rows| :: |rows[r]| == 16
    requires q < |rows| && k < 16
    ensures |Flatten(rows)| == 16 * |rows|
    ensures Flatten(rows)[16 * q + k] == rows[q][k]
  {
    if |rows| == 1 {
      assert Flatten(rows[1..]) == [] && Flatten(rows) == rows[0];
    } else {
      FlattenAt(rows[1..], if q == 0 then 0 else q - 1, k);
    }
  }

  lemma RowLengths()
    ensures |ROWS| == 16 && forall q | 0 <= q < 16 :: |ROWS[q]| == 16
  {}

  lemma TableAt(q: nat, k: nat)
    requires q < 16 && k < 16
    ensures |CRC32_TAB| == 256 && |ROWS| == 16 && |ROWS[q]| == 16
    ensures CRC32_TAB[16 * q + k] == ROWS[q][k]
  {
    RowLengths();
    FlattenAt(ROWS, q, k);
  }

  lemma Nibbles(i: bv8)
    ensures i as int == 16 * ((i >> 4) as int) + ((i & 15) as int)
    ensures 0 <= (i >> 4) as int < 16 && 0 <= (i & 15) as int < 16
    ensures i >> 4 < 16 && i & 15 < 16 && i == ((i >> 4) << 4) | (i & 15)
  {}

  lemma RowEntry(high: bv8, low: bv8)
    requires high < 16 && low < 16
    ensures 0 <= high as int < 16 && 0 <= low as int < 16
    ensures |ROWS| == 16 && |ROWS[high as int]| == 16
    ensures ROWS[high as int][low as int] == FeedbackEntry(high, low)
  {
    RowsAreFeedback();
    FeedbackAt(high, low);
  }

  lemma JoinNibbles(i: bv8)
    ensures FeedbackEntry(i >> 4, i & 15) == EightSteps(i as bv32)
  {
    Nibbles(i);
  }

  /** The table of the source holds, for every byte, the register after eight steps of that byte. */
  lemma TableEntry(i: bv8)
    ensures |CRC32_TAB| == 256 && CRC32_TAB[i as int] == EightSteps(i as bv32)
  {
    Nibbles(i);
    TableAt((i >> 4) as int, (i & 15) as int);
    RowEntry(i >> 4, i & 15);
    JoinNibbles(i);
  }

  lemma TableIsFeedback()
    ensures Tabulates(CRC32_TAB, EightSteps)
  {
    TableEntry(0);
    forall i: bv8 ensures EntryIs(CRC32_TAB, EightSteps, i) { TableEntry(i); }
  }

  // ----- The step is linear and one-to-one -----

  function Low(x: bv32): bool { x & 1 == 1 }

  function Half(x: bv32): bv32 { x >> 1 }

  function Rest(x: bv32): bv32 { x & 0xFFFFFFFE }

  function Bit(b: bool): bv32 { if b then 1 else 0 }

  function Feedback(out: bool): bv32 { if out then 0xEDB88320 else 0 }

  lemma StepIsShiftAndFeedback(x: bv32)
    ensures IsShiftAndFeedback(Step, Xor, Low, Half, Feedback, x)
  {}

  lemma HalfAddsUp(x: bv32, y: bv32)
    ensures AddsUp(Half, Xor, x, y)
  {}

  lemma LowOfXor(x: bv32, y: bv32)
    ensures LowAddsUp(Low, Xor, x, y)
  {}

  lemma Associative(a: bv32, b: bv32, c: bv32)
    ensures Xor(a ^ b, c) == Xor(a, b ^ c)
  {}

  lemma XorRegroups(a: bv32, b: bv32, c: bv32)
    ensures Regroups(Xor, a, b, c)
  {
    Associative(a, b, c);
    assert Xor(a, b) == a ^ b && Xor(b, c) == b ^ c;
  }

  lemma Exchange(a: bv32, b: bv32, c: bv32, d: bv32)
    ensures Xor(a ^ b, c ^ d) == Xor(a ^ c, b ^ d)
  {}

  lemma XorExchanges(a: bv32, b: bv32, c: bv32, d: bv32)
    ensures Exchanges(Xor, a, b, c, d)
  {
    Exchange(a, b, c, d);
    assert Xor(a, b) == a ^ b && Xor(c, d) == c ^ d && Xor(a, c) == a ^ c && Xor(b, d) == b ^ d;
  }

  lemma BitSums(p: bool, q: bool)
    ensures BitSum(Xor, Bit, p, q) && BitSum(Xor, Feedback, p, q)
  {}

  lemma XorAddsBits()
    ensures AddsBits(Xor, Bit) && AddsBits(Xor, Feedback)
  {
    forall p, q ensures BitSum(Xor, Bit, p, q) && BitSum(Xor, Feedback, p, q) { BitSums(p, q); }
    forall a, b, c, d ensures Exchanges(Xor, a, b, c, d) { XorExchanges(a, b, c, d); }
  }

  lemma StepIsLinear()
    ensures Linear(Step, Xor)
  {
    forall x ensures IsShiftAndFeedback(Step, Xor, Low, Half, Feedback, x) { StepIsShiftAndFeedback(x); }
    forall x, y ensures AddsUp(Half, Xor, x, y) { HalfAddsUp(x, y); }
    forall x, y ensures LowAddsUp(Low, Xor, x, y) { LowOfXor(x, y); }
    XorAddsBits();
    ShiftAndFeedbackIsLinear(Step, Xor, Low, Half, Feedback);
  }

  lemma EightStepsLinear(x: bv32, y: bv32)
    ensures AddsUp(EightSteps, Xor, x, y)
  {
    StepIsLinear();
    IterateLinear(Step, Xor, x, y, 8);
  }

  lemma HighBytes(x: bv32)
    requires x & 0xFF == 0
    ensures EightSteps(x) == x >> 8
  {}

  lemma EightStepsSplits()
    ensures SplitsAtLowByte(EightSteps)
  {
    forall x, y ensures AddsUp(EightSteps, Xor, x, y) { EightStepsLinear(x, y); }
    forall high ensures Shifts(EightSteps, high) { if high & 0xFF == 0 { HighBytes(high); } }
  }

  // ----- One turn of the table loop is one step of the register -----

  lemma AddParts<X(!new)>(f: X -> X, plus: (X, X) -> X, x: X, low: X, high: X, entry: X, shifted: X)
    requires Linear(f, plus) && x == plus(low, high)
    requires entry == f(low) && shifted == f(high)
    ensures plus(entry, shifted) == f(x)
  {
    assert AddsUp(f, plus, low, high);
  }

  lemma Halves(crc: bv32, b: bv8)
    ensures crc ^ (b as bv32) == Xor(TableIndex(crc, b) as bv32, crc & 0xFFFFFF00)
    ensures (crc & 0xFFFFFF00) & 0xFF == 0 && (crc & 0xFFFFFF00) >> 8 == crc >> 8
  {}

  lemma StepOfHalves(byteStep: bv32 -> bv32, crc: bv32, b: bv8, entry: bv32)
    requires Linear(byteStep, Xor)
    requires byteStep(TableIndex(crc, b) as bv32) == entry
    requires byteStep(crc & 0xFFFFFF00) == crc >> 8
    ensures entry ^ (crc >> 8) == byteStep(crc ^ (b as bv32))
  {
    Halves(crc, b);
    AddParts(byteStep, Xor, crc ^ (b as bv32), TableIndex(crc, b) as bv32, crc & 0xFFFFFF00, entry, crc >> 8);
  }

  lemma HighHalf(byteStep: bv32 -> bv32, crc: bv32)
    requires SplitsAtLowByte(byteStep)
    ensures byteStep(crc & 0xFFFFFF00) == crc >> 8
  {
    Halves(crc, 0);
    assert Shifts(byteStep, crc & 0xFFFFFF00);
  }

  lemma TableStep(table: seq<bv32>, byteStep: bv32 -> bv32, crc: bv32, b: bv8, index: bv8, entry: bv32)
    requires Tabulates(table, byteStep) && SplitsAtLowByte(byteStep)
    requires index == TableIndex(crc, b) && entry == table[index as int]
    ensures entry ^ (crc >> 8) == byteStep(crc ^ (b as bv32))
  {
    assert EntryIs(table, byteStep, index);
    HighHalf(byteStep, crc);
    StepOfHalves(byteStep, crc, b, entry);
  }

  // ----- The loop of the source -----

  /** The loop of the boot loader over a table of feedback terms. */
  method TableLoop(table: seq<bv32>, ghost byteStep: bv32 -> bv32, crcIn: bv32, buf: seq<bv8>)
      returns (result: bv32)
    requires Tabulates(table, byteStep) && SplitsAtLowByte(byteStep)
    ensures result == Invert(Register(byteStep, Invert(crcIn), buf))
  {
    var crc := Invert(crcIn);
    var p := 0;
    while p < |buf|
      invariant p <= |buf|
      invariant Register(byteStep, crc, buf[p..]) == Register(byteStep, Invert(crcIn), buf)
    {
      var index := TableIndex(crc, buf[p]);
      var entry := table[index as int];
      TableStep(table, byteStep, crc, buf[p], index, entry);
      crc := entry ^ (crc >> 8);
      p := p + 1;
    }
    result := Invert(crc);
  }

  /** The CRC-32 of the boot loader, with its own table. */
  method BubCrc32(crcIn: bv32, buf: seq<bv8>) returns (result: bv32)
    ensures result == Crc(crcIn, buf)
  {
    TableIsFeedback();
    EightStepsSplits();
    result := TableLoop(CRC32_TAB, EightSteps, crcIn, buf);
  }

  // ----- Continuing a CRC -----

  lemma {:induction false} RegisterConcat(byteStep: bv32 -> bv32, crc: bv32, a: seq<bv8>, b: seq<bv8>)
    ensures Register(byteStep, crc, a + b) == Register(byteStep, Register(byteStep, crc, a), b)
    decreases |a|
  {
    if a == [] {
      assert a + b == b;
    } else {
      assert (a + b)[1..] == a[1..] + b;
      RegisterConcat(byteStep, byteStep(crc ^ (a[0] as bv32)), a[1..], b);
    }
  }

  lemma InvertTwice(x: bv32)
    ensures Invert(Invert(x)) == x
  {}

  /** Passing the CRC of a first part as the seed of the second gives the CRC of the whole. */
  lemma CrcContinues(seed: bv32, a: seq<bv8>, b: seq<bv8>)
    ensures Crc(Crc(seed, a), b) == Crc(seed, a + b)
  {
    RegisterConcat(EightSteps, Invert(seed), a, b);
    InvertTwice(Register(EightSteps, Invert(seed), a));
  }

  // ----- What the two inversions do -----

  /** The CRC of a single zero byte. */
  lemma CrcOfZeroByte()
    ensures Crc(0, [0]) == 0xD202EF8D
  {
    var r: bv32 := 0xFFFFFFFF;
    assert EightSteps(r) == 0x2DFD1072;
    assert r ^ (0 as bv8 as bv32) == r;
    assert Register(EightSteps, r, [0]) == 0x2DFD1072;
  }

  /** The four bytes of a word as a little-endian host stores them. */
  function LittleEndian(v: bv32): (s: seq<bv8>)
    ensures |s| == 4
  {
    [(v & 0xFF) as bv8, ((v >> 8) & 0xFF) as bv8, ((v >> 16) & 0xFF) as bv8, (v >> 24) as bv8]
  }

  function LowByte(w: bv32): bv8 { (w & 0xFF) as bv8 }

  function HighBytesDown(w: bv32): bv32 { w >> 8 }

  /** The `n` low bytes of a word, lowest first; `low` takes one off and `down` leaves the rest. */
  function LowBytes(low: bv32 -> bv8, down: bv32 -> bv32, w: bv32, n: nat): seq<bv8>
    decreases n
  {
    if n == 0 then [] else [low(w)] + LowBytes(low, down, down(w), n - 1)
  }

  /** `enter` is what the register does with one byte. */
  ghost predicate IsTurn(byteStep: bv32 -> bv32, enter: (bv32, bv8) -> bv32, r: bv32, b: bv8) {
    enter(r, b) == byteStep(r ^ (b as bv32))
  }

  /** Entering the low byte of a word and adding the rest is one byte step of the sum. */
  ghost predicate EntersLowByte(byteStep: bv32 -> bv32, enter: (bv32, bv8) -> bv32, plus: (bv32, bv32) -> bv32,
      low: bv32 -> bv8, down: bv32 -> bv32, r: bv32, w: bv32)
  {
    plus(enter(r, low(w)), down(w)) == byteStep(plus(r, w))
  }

  function EnterEight(r: bv32, b: bv8): bv32 { EightSteps(r ^ (b as bv32)) }

  lemma SplitSum(r: bv32, w: bv32)
    ensures r ^ w == Xor(r ^ (LowByte(w) as bv32), w & 0xFFFFFF00)
    ensures (w & 0xFFFFFF00) & 0xFF == 0 && (w & 0xFFFFFF00) >> 8 == w >> 8
  {}

  lemma FeedLowByte(byteStep: bv32 -> bv32, enter: (bv32, bv8) -> bv32, r: bv32, w: bv32)
    requires SplitsAtLowByte(byteStep) && IsTurn(byteStep, enter, r, LowByte(w))
    ensures EntersLowByte(byteStep, enter, Xor, LowByte, HighBytesDown, r, w)
  {
    SplitSum(r, w);
    assert Shifts(byteStep, w & 0xFFFFFF00);
    AddParts(byteStep, Xor, r ^ w, r ^ (LowByte(w) as bv32), w & 0xFFFFFF00, byteStep(r ^ (LowByte(w) as bv32)), w >> 8);
  }

  lemma RegisterTurn(byteStep: bv32 -> bv32, enter: (bv32, bv8) -> bv32, r: bv32, b: bv8, rest: seq<bv8>)
    requires IsTurn(byteStep, enter, r, b)
    ensures Register(byteStep, r, [b] + rest) == Register(byteStep, enter(r, b), rest)
  {
    assert ([b] + rest)[1..] == rest;
  }

  /** The low bytes of a word enter the register as so many byte steps of its sum with the word. */
  lemma {:induction false} FeedLowBytes(byteStep: bv32 -> bv32, enter: (bv32, bv8) -> bv32, plus: (bv32, bv32) -> bv32,
      low: bv32 -> bv8, down: bv32 -> bv32, r: bv32, w: bv32, n: nat)
    requires forall x, b :: IsTurn(byteStep, enter, x, b)
    requires forall x, y :: EntersLowByte(byteStep, enter, plus, low, down, x, y)
    ensures plus(Register(byteStep, r, LowBytes(low, down, w, n)), Iterate(down, w, n)) == Iterate(byteStep, plus(r, w), n)
    decreases n
  {
    if n > 0 {
      assert IsTurn(byteStep, enter, r, low(w));
      RegisterTurn(byteStep, enter, r, low(w), LowBytes(low, down, down(w), n - 1));
      assert EntersLowByte(byteStep, enter, plus, low, down, r, w);
      FeedLowBytes(byteStep, enter, plus, low, down, enter(r, low(w)), down(w), n - 1);
    }
  }

  lemma FourLowBytes(low: bv32 -> bv8, down: bv32 -> bv32, w: bv32)
    ensures LowBytes(low, down, w, 4) == [low(w), low(down(w)), low(down(down(w))), low(down(down(down(w))))]
  {
    assert LowBytes(low, down, down(down(down(w))), 1) == [low(down(down(down(w))))];
    assert LowBytes(low, down, down(down(w)), 2) == [low(down(down(w))), low(down(down(down(w))))];
  }

  lemma BytesOfWord(w: bv32)
    ensures [LowByte(w), LowByte(HighBytesDown(w)), LowByte(HighBytesDown(HighBytesDown(w))),
             LowByte(HighBytesDown(HighBytesDown(HighBytesDown(w))))] == LittleEndian(w)
  {}

  lemma NothingLeft(w: bv32)
    ensures Iterate(HighBytesDown, w, 4) == 0
  {}

  lemma XorZeroRight(x: bv32)
    ensures Xor(x, 0) == x
  {}

  lemma InvertFills(r: bv32)
    ensures Xor(r, Invert(r)) == 0xFFFFFFFF
  {}

  lemma StepsOfOnes()
    ensures EightSteps(0xFFFFFFFF) == 0x2DFD1072 && EightSteps(0x2DFD1072) == 0xBE26ED00
    ensures EightSteps(0xBE26ED00) == 0x00BE26ED && EightSteps(0x00BE26ED) == 0xDEBB20E3
  {}

  lemma FourTimes(f: bv32 -> bv32, x: bv32)
    ensures Iterate(f, x, 4) == f(f(f(f(x))))
  {
    assert Iterate(f, f(f(f(f(x)))), 0) == f(f(f(f(x))));
    assert Iterate(f, f(f(x)), 2) == f(f(f(f(x))));
  }

  lemma EightTurn(r: bv32, b: bv8)
    ensures IsTurn(EightSteps, EnterEight, r, b)
  {}

  lemma RegisterResidue(r: bv32)
    ensures Register(EightSteps, r, LittleEndian(Invert(r))) == 0xDEBB20E3
  {
    EightStepsSplits();
    var w := Invert(r);
    forall x, b: bv8 ensures IsTurn(EightSteps, EnterEight, x, b) { EightTurn(x, b); }
    forall x, y ensures EntersLowByte(EightSteps, EnterEight, Xor, LowByte, HighBytesDown, x, y) {
      FeedLowByte(EightSteps, EnterEight, x, y);
    }
    FeedLowBytes(EightSteps, EnterEight, Xor, LowByte, HighBytesDown, r, w, 4);
    FourLowBytes(LowByte, HighBytesDown, w);
    BytesOfWord(w);
    NothingLeft(w);
    XorZeroRight(Register(EightSteps, r, LittleEndian(w)));
    InvertFills(r);
    FourTimes(EightSteps, 0xFFFFFFFF);
    StepsOfOnes();
  }

  /** A buffer followed by its own CRC, lowest byte first, has the residue of every CRC-32, whatever the
      buffer and the seed. */
  lemma Residue(seed: bv32, buf: seq<bv8>)
    ensures var c := Crc(seed, buf);
            Crc(seed, buf + [(c & 0xFF) as bv8, ((c >> 8) & 0xFF) as bv8, ((c >> 16) & 0xFF) as bv8, (c >> 24) as bv8])
              == 0x2144DF1C
  {
    var c := Crc(seed, buf);
    var r := Register(EightSteps, Invert(seed), buf);
    RegisterConcat(EightSteps, Invert(seed), buf, LittleEndian(c));
    RegisterResidue(r);
    assert Invert(0xDEBB20E3) == 0x2144DF1C;
  }
}
