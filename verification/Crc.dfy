/** The table-driven CRC-32, the bit-by-bit one it stands for (section 8 of RFC 1952), and what it detects. */
module Crc {
  const POLYNOMIAL: bv32 := 0xEDB88320

  // The table, sixteen entries to a row.

  const ROW_0: seq<bv32> := [
    0x00000000, 0x77073096, 0xEE0E612C, 0x990951BA, 0x076DC419, 0x706AF48F, 0xE963A535, 0x9E6495A3,
    0x0EDB8832, 0x79DCB8A4, 0xE0D5E91E, 0x97D2D988, 0x09B64C2B, 0x7EB17CBD, 0xE7B82D07, 0x90BF1D91
  ]
  const ROW_1: seq<bv32> := [
    0x1DB71064, 0x6AB020F2, 0xF3B97148, 0x84BE41DE, 0x1ADAD47D, 0x6DDDE4EB, 0xF4D4B551, 0x83D385C7,
    0x136C9856, 0x646BA8C0, 0xFD62F97A, 0x8A65C9EC, 0x14015C4F, 0x63066CD9, 0xFA0F3D63, 0x8D080DF5
  ]
  const ROW_2: seq<bv32> := [
    0x3B6E20C8, 0x4C69105E, 0xD56041E4, 0xA2677172, 0x3C03E4D1, 0x4B04D447, 0xD20D85FD, 0xA50AB56B,
    0x35B5A8FA, 0x42B2986C, 0xDBBBC9D6, 0xACBCF940, 0x32D86CE3, 0x45DF5C75, 0xDCD60DCF, 0xABD13D59
  ]
  const ROW_3: seq<bv32> := [
    0x26D930AC, 0x51DE003A, 0xC8D75180, 0xBFD06116, 0x21B4F4B5, 0x56B3C423, 0xCFBA9599, 0xB8BDA50F,
    0x2802B89E, 0x5F058808, 0xC60CD9B2, 0xB10BE924, 0x2F6F7C87, 0x58684C11, 0xC1611DAB, 0xB6662D3D
  ]
  const ROW_4: seq<bv32> := [
    0x76DC4190, 0x01DB7106, 0x98D220BC, 0xEFD5102A, 0x71B18589, 0x06B6B51F, 0x9FBFE4A5, 0xE8B8D433,
    0x7807C9A2, 0x0F00F934, 0x9609A88E, 0xE10E9818, 0x7F6A0DBB, 0x086D3D2D, 0x91646C97, 0xE6635C01
  ]
  const ROW_5: seq<bv32> := [
    0x6B6B51F4, 0x1C6C6162, 0x856530D8, 0xF262004E, 0x6C0695ED, 0x1B01A57B, 0x8208F4C1, 0xF50FC457,
    0x65B0D9C6, 0x12B7E950, 0x8BBEB8EA, 0xFCB9887C, 0x62DD1DDF, 0x15DA2D49, 0x8CD37CF3, 0xFBD44C65
  ]
  const ROW_6: seq<bv32> := [
    0x4DB26158, 0x3AB551CE, 0xA3BC0074, 0xD4BB30E2, 0x4ADFA541, 0x3DD895D7, 0xA4D1C46D, 0xD3D6F4FB,
    0x4369E96A, 0x346ED9FC, 0xAD678846, 0xDA60B8D0, 0x44042D73, 0x33031DE5, 0xAA0A4C5F, 0xDD0D7CC9
  ]
  const ROW_7: seq<bv32> := [
    0x5005713C, 0x270241AA, 0xBE0B1010, 0xC90C2086, 0x5768B525, 0x206F85B3, 0xB966D409, 0xCE61E49F,
    0x5EDEF90E, 0x29D9C998, 0xB0D09822, 0xC7D7A8B4, 0x59B33D17, 0x2EB40D81, 0xB7BD5C3B, 0xC0BA6CAD
  ]
  const ROW_8: seq<bv32> := [
    0xEDB88320, 0x9ABFB3B6, 0x03B6E20C, 0x74B1D29A, 0xEAD54739, 0x9DD277AF, 0x04DB2615, 0x73DC1683,
    0xE3630B12, 0x94643B84, 0x0D6D6A3E, 0x7A6A5AA8, 0xE40ECF0B, 0x9309FF9D, 0x0A00AE27, 0x7D079EB1
  ]
  const ROW_9: seq<bv32> := [
    0xF00F9344, 0x8708A3D2, 0x1E01F268, 0x6906C2FE, 0xF762575D, 0x806567CB, 0x196C3671, 0x6E6B06E7,
    0xFED41B76, 0x89D32BE0, 0x10DA7A5A, 0x67DD4ACC, 0xF9B9DF6F, 0x8EBEEFF9, 0x17B7BE43, 0x60B08ED5
  ]
  const ROW_10: seq<bv32> := [
    0xD6D6A3E8, 0xA1D1937E, 0x38D8C2C4, 0x4FDFF252, 0xD1BB67F1, 0xA6BC5767, 0x3FB506DD, 0x48B2364B,
    0xD80D2BDA, 0xAF0A1B4C, 0x36034AF6, 0x41047A60, 0xDF60EFC3, 0xA867DF55, 0x316E8EEF, 0x4669BE79
  ]
  const ROW_11: seq<bv32> := [
    0xCB61B38C, 0xBC66831A, 0x256FD2A0, 0x5268E236, 0xCC0C7795, 0xBB0B4703, 0x220216B9, 0x5505262F,
    0xC5BA3BBE, 0xB2BD0B28, 0x2BB45A92, 0x5CB36A04, 0xC2D7FFA7, 0xB5D0CF31, 0x2CD99E8B, 0x5BDEAE1D
  ]
  const ROW_12: seq<bv32> := [
    0x9B64C2B0, 0xEC63F226, 0x756AA39C, 0x026D930A, 0x9C0906A9, 0xEB0E363F, 0x72076785, 0x05005713,
    0x95BF4A82, 0xE2B87A14, 0x7BB12BAE, 0x0CB61B38, 0x92D28E9B, 0xE5D5BE0D, 0x7CDCEFB7, 0x0BDBDF21
  ]
  const ROW_13: seq<bv32> := [
    0x86D3D2D4, 0xF1D4E242, 0x68DDB3F8, 0x1FDA836E, 0x81BE16CD, 0xF6B9265B, 0x6FB077E1, 0x18B74777,
    0x88085AE6, 0xFF0F6A70, 0x66063BCA, 0x11010B5C, 0x8F659EFF, 0xF862AE69, 0x616BFFD3, 0x166CCF45
  ]
  const ROW_14: seq<bv32> := [
    0xA00AE278, 0xD70DD2EE, 0x4E048354, 0x3903B3C2, 0xA7672661, 0xD06016F7, 0x4969474D, 0x3E6E77DB,
    0xAED16A4A, 0xD9D65ADC, 0x40DF0B66, 0x37D83BF0, 0xA9BCAE53, 0xDEBB9EC5, 0x47B2CF7F, 0x30B5FFE9
  ]
  const ROW_15: seq<bv32> := [
    0xBDBDF21C, 0xCABAC28A, 0x53B39330, 0x24B4A3A6, 0xBAD03605, 0xCDD70693, 0x54DE5729, 0x23D967BF,
    0xB3667A2E, 0xC4614AB8, 0x5D681B02, 0x2A6F2B94, 0xB40BBE37, 0xC30C8EA1, 0x5A05DF1B, 0x2D02EF8D
  ]

  const TABLE: seq<seq<bv32>> := [
    ROW_0, ROW_1, ROW_2, ROW_3, ROW_4, ROW_5, ROW_6, ROW_7,
    ROW_8, ROW_9, ROW_10, ROW_11, ROW_12, ROW_13, ROW_14, ROW_15
  ]

  lemma TableSize(r: nat)
    requires r < 16
    ensures |TABLE| == 16 && |TABLE[r]| == 16
  {
    assert TABLE[r] in TABLE;
  }

  // The bit operations have names, so that proofs about them need not look at bits.

  function Xor(a: bv32, b: bv32): bv32 {
    a ^ b
  }

  /** What the loop keeps of the state: the upper three bytes. */
  function High(crc: bv32): (h: bv32)
    ensures h < 0x1000000
  {
    (crc >> 8) & 0x00FFFFFF
  }

  /** The index of the loop. */
  function Low(x: bv32): (l: bv32)
    ensures l < 256
  {
    x & 0xFF
  }

  function Up(x: bv32): bv32 {
    x << 8
  }

  function UpperNibble(x: bv32): (h: bv32)
    requires x < 256
    ensures h < 16
  {
    x >> 4
  }

  function LowerNibble(x: bv32): (k: bv32)
    ensures k < 16
  {
    x & 0xF
  }

  /** The entry at an index. */
  function Entry(x: bv32): bv32
    requires x < 256
  {
    TableSize(UpperNibble(x) as int);
    TABLE[UpperNibble(x) as int][LowerNibble(x) as int]
  }

  function Half(x: bv32): bv32 {
    x >> 1
  }

  predicate Odd(x: bv32) {
    x & 1 == 1
  }

  function Reduce(x: bv32, odd: bool): bv32 {
    if odd then Xor(x, POLYNOMIAL) else x
  }

  /** One bit of the division by the reflected polynomial. */
  function Shift(x: bv32): bv32 {
    Reduce(Half(x), Odd(x))
  }

  function Eight(x: bv32): bv32 {
    Shift(Shift(Shift(Shift(Shift(Shift(Shift(Shift(x))))))))
  }

  // ----- The division is linear -----

  lemma HalfLinear(a: bv32, b: bv32)
    ensures Half(Xor(a, b)) == Xor(Half(a), Half(b))
  {
  }

  lemma OddLinear(a: bv32, b: bv32)
    ensures Odd(Xor(a, b)) <==> Odd(a) != Odd(b)
  {
  }

  lemma XorBoth(a: bv32, b: bv32, p: bv32)
    ensures Xor(Xor(a, p), Xor(b, p)) == Xor(a, b)
  {
    calc {
      Xor(Xor(a, p), Xor(b, p));
      Xor(a ^ p, b ^ p);
      (a ^ p) ^ (b ^ p);
      a ^ b;
      Xor(a, b);
    }
  }

  lemma XorLeft(a: bv32, b: bv32, p: bv32)
    ensures Xor(Xor(a, p), b) == Xor(Xor(a, b), p)
  {
    calc {
      Xor(Xor(a, p), b);
      Xor(a ^ p, b);
      (a ^ p) ^ b;
      (a ^ b) ^ p;
      Xor(a ^ b, p);
      Xor(Xor(a, b), p);
    }
  }

  lemma XorRight(a: bv32, b: bv32, p: bv32)
    ensures Xor(a, Xor(b, p)) == Xor(Xor(a, b), p)
  {
    calc {
      Xor(a, Xor(b, p));
      Xor(a, b ^ p);
      a ^ (b ^ p);
      (a ^ b) ^ p;
      Xor(a ^ b, p);
      Xor(Xor(a, b), p);
    }
  }

  lemma ReduceLinear(a: bv32, b: bv32, oddA: bool, oddB: bool)
    ensures Reduce(Xor(a, b), oddA != oddB) == Xor(Reduce(a, oddA), Reduce(b, oddB))
  {
    hide Xor;
    XorBoth(a, b, POLYNOMIAL);
    XorLeft(a, b, POLYNOMIAL);
    XorRight(a, b, POLYNOMIAL);
  }

  lemma ShiftLinear(a: bv32, b: bv32)
    ensures Shift(Xor(a, b)) == Xor(Shift(a), Shift(b))
  {
    hide Half, Odd, Reduce, Xor;
    HalfLinear(a, b);
    OddLinear(a, b);
    ReduceLinear(Half(a), Half(b), Odd(a), Odd(b));
  }

  lemma EightLinear(a: bv32, b: bv32)
    ensures Eight(Xor(a, b)) == Xor(Eight(a), Eight(b))
  {
    hide Shift, Xor;
    var a1, b1 := Shift(a), Shift(b);
    var a2, b2 := Shift(a1), Shift(b1);
    var a3, b3 := Shift(a2), Shift(b2);
    var a4, b4 := Shift(a3), Shift(b3);
    var a5, b5 := Shift(a4), Shift(b4);
    var a6, b6 := Shift(a5), Shift(b5);
    ShiftLinear(a, b);
    ShiftLinear(a1, b1);
    ShiftLinear(a2, b2);
    ShiftLinear(a3, b3);
    ShiftLinear(a4, b4);
    ShiftLinear(a5, b5);
    ShiftLinear(a6, b6);
    ShiftLinear(Shift(a6), Shift(b6));
  }

  // ----- The table holds eight steps of the division -----

  lemma ShiftsOfOne()
    ensures Shift(0x00000001) == 0xEDB88320
    ensures Shift(0xEDB88320) == 0x76DC4190
    ensures Shift(0x76DC4190) == 0x3B6E20C8
    ensures Shift(0x3B6E20C8) == 0x1DB71064
  {
  }

  lemma MoreShiftsOfOne()
    ensures Shift(0x1DB71064) == 0x0EDB8832
    ensures Shift(0x0EDB8832) == 0x076DC419
    ensures Shift(0x076DC419) == 0xEE0E612C
    ensures Shift(0xEE0E612C) == 0x77073096
  {
  }

  lemma ShiftsDown()
    ensures Shift(0x00000080) == 0x00000040
    ensures Shift(0x00000040) == 0x00000020
    ensures Shift(0x00000020) == 0x00000010
    ensures Shift(0x00000010) == 0x00000008
    ensures Shift(0x00000008) == 0x00000004
    ensures Shift(0x00000004) == 0x00000002
    ensures Shift(0x00000002) == 0x00000001
    ensures Shift(0) == 0
  {
  }

  /** The divisions of the powers of two. */
  lemma Powers()
    ensures Eight(0x00000001) == 0x77073096
    ensures Eight(0x00000002) == 0xEE0E612C
    ensures Eight(0x00000004) == 0x076DC419
    ensures Eight(0x00000008) == 0x0EDB8832
    ensures Eight(0x00000010) == 0x1DB71064
    ensures Eight(0x00000020) == 0x3B6E20C8
    ensures Eight(0x00000040) == 0x76DC4190
    ensures Eight(0x00000080) == 0xEDB88320
    ensures Eight(0) == 0
  {
    hide Shift;
    ShiftsOfOne();
    MoreShiftsOfOne();
    ShiftsDown();
  }

  /** Divisions add up. */
  lemma Sum(a: bv32, b: bv32, c: bv32, ea: bv32, eb: bv32, ec: bv32)
    requires c == Xor(a, b) && ec == Xor(ea, eb) && Eight(a) == ea && Eight(b) == eb
    ensures Eight(c) == ec
  {
    hide *;
    EightLinear(a, b);
  }

  /** The divisions of the lower nibbles. */
  lemma LowDivisions()
    ensures Eight(0x00000000) == 0x00000000
    ensures Eight(0x00000001) == 0x77073096
    ensures Eight(0x00000002) == 0xEE0E612C
    ensures Eight(0x00000003) == 0x990951BA
    ensures Eight(0x00000004) == 0x076DC419
    ensures Eight(0x00000005) == 0x706AF48F
    ensures Eight(0x00000006) == 0xE963A535
    ensures Eight(0x00000007) == 0x9E6495A3
    ensures Eight(0x00000008) == 0x0EDB8832
    ensures Eight(0x00000009) == 0x79DCB8A4
    ensures Eight(0x0000000A) == 0xE0D5E91E
    ensures Eight(0x0000000B) == 0x97D2D988
    ensures Eight(0x0000000C) == 0x09B64C2B
    ensures Eight(0x0000000D) == 0x7EB17CBD
    ensures Eight(0x0000000E) == 0xE7B82D07
    ensures Eight(0x0000000F) == 0x90BF1D91
  {
    hide Eight;
    Powers();
    Sum(0x00000002, 0x00000001, 0x00000003, 0xEE0E612C, 0x77073096, 0x990951BA);
    Sum(0x00000004, 0x00000001, 0x00000005, 0x076DC419, 0x77073096, 0x706AF48F);
    Sum(0x00000004, 0x00000002, 0x00000006, 0x076DC419, 0xEE0E612C, 0xE963A535);
    Sum(0x00000006, 0x00000001, 0x00000007, 0xE963A535, 0x77073096, 0x9E6495A3);
    Sum(0x00000008, 0x00000001, 0x00000009, 0x0EDB8832, 0x77073096, 0x79DCB8A4);
    Sum(0x00000008, 0x00000002, 0x0000000A, 0x0EDB8832, 0xEE0E612C, 0xE0D5E91E);
    Sum(0x0000000A, 0x00000001, 0x0000000B, 0xE0D5E91E, 0x77073096, 0x97D2D988);
    Sum(0x00000008, 0x00000004, 0x0000000C, 0x0EDB8832, 0x076DC419, 0x09B64C2B);
    Sum(0x0000000C, 0x00000001, 0x0000000D, 0x09B64C2B, 0x77073096, 0x7EB17CBD);
    Sum(0x0000000C, 0x00000002, 0x0000000E, 0x09B64C2B, 0xEE0E612C, 0xE7B82D07);
    Sum(0x0000000E, 0x00000001, 0x0000000F, 0xE7B82D07, 0x77073096, 0x90BF1D91);
  }

  /** The divisions of the upper nibbles. */
  lemma HighDivisions()
    ensures Eight(0x00000000) == 0x00000000
    ensures Eight(0x00000010) == 0x1DB71064
    ensures Eight(0x00000020) == 0x3B6E20C8
    ensures Eight(0x00000030) == 0x26D930AC
    ensures Eight(0x00000040) == 0x76DC4190
    ensures Eight(0x00000050) == 0x6B6B51F4
    ensures Eight(0x00000060) == 0x4DB26158
    ensures Eight(0x00000070) == 0x5005713C
    ensures Eight(0x00000080) == 0xEDB88320
    ensures Eight(0x00000090) == 0xF00F9344
    ensures Eight(0x000000A0) == 0xD6D6A3E8
    ensures Eight(0x000000B0) == 0xCB61B38C
    ensures Eight(0x000000C0) == 0x9B64C2B0
    ensures Eight(0x000000D0) == 0x86D3D2D4
    ensures Eight(0x000000E0) == 0xA00AE278
    ensures Eight(0x000000F0) == 0xBDBDF21C
  {
    hide Eight;
    Powers();
    Sum(0x00000020, 0x00000010, 0x00000030, 0x3B6E20C8, 0x1DB71064, 0x26D930AC);
    Sum(0x00000040, 0x00000010, 0x00000050, 0x76DC4190, 0x1DB71064, 0x6B6B51F4);
    Sum(0x00000040, 0x00000020, 0x00000060, 0x76DC4190, 0x3B6E20C8, 0x4DB26158);
    Sum(0x00000060, 0x00000010, 0x00000070, 0x4DB26158, 0x1DB71064, 0x5005713C);
    Sum(0x00000080, 0x00000010, 0x00000090, 0xEDB88320, 0x1DB71064, 0xF00F9344);
    Sum(0x00000080, 0x00000020, 0x000000A0, 0xEDB88320, 0x3B6E20C8, 0xD6D6A3E8);
    Sum(0x000000A0, 0x00000010, 0x000000B0, 0xD6D6A3E8, 0x1DB71064, 0xCB61B38C);
    Sum(0x00000080, 0x00000040, 0x000000C0, 0xEDB88320, 0x76DC4190, 0x9B64C2B0);
    Sum(0x000000C0, 0x00000010, 0x000000D0, 0x9B64C2B0, 0x1DB71064, 0x86D3D2D4);
    Sum(0x000000C0, 0x00000020, 0x000000E0, 0x9B64C2B0, 0x3B6E20C8, 0xA00AE278);
    Sum(0x000000E0, 0x00000010, 0x000000F0, 0xA00AE278, 0x1DB71064, 0xBDBDF21C);
  }

  /** A row is its first entry combined with the first row. */
  predicate IsRow(row: seq<bv32>) {
    |row| == 16
    && row[0] == Xor(row[0], 0x00000000) && row[1] == Xor(row[0], 0x77073096)
    && row[2] == Xor(row[0], 0xEE0E612C) && row[3] == Xor(row[0], 0x990951BA)
    && row[4] == Xor(row[0], 0x076DC419) && row[5] == Xor(row[0], 0x706AF48F)
    && row[6] == Xor(row[0], 0xE963A535) && row[7] == Xor(row[0], 0x9E6495A3)
    && row[8] == Xor(row[0], 0x0EDB8832) && row[9] == Xor(row[0], 0x79DCB8A4)
    && row[10] == Xor(row[0], 0xE0D5E91E) && row[11] == Xor(row[0], 0x97D2D988)
    && row[12] == Xor(row[0], 0x09B64C2B) && row[13] == Xor(row[0], 0x7EB17CBD)
    && row[14] == Xor(row[0], 0xE7B82D07) && row[15] == Xor(row[0], 0x90BF1D91)
  }

  lemma Row0()
    ensures IsRow(ROW_0)
  {
  }

  lemma Row1()
    ensures IsRow(ROW_1)
  {
  }

  lemma Row2()
    ensures IsRow(ROW_2)
  {
  }

  lemma Row3()
    ensures IsRow(ROW_3)
  {
  }

  lemma Row4()
    ensures IsRow(ROW_4)
  {
  }

  lemma Row5()
    ensures IsRow(ROW_5)
  {
  }

  lemma Row6()
    ensures IsRow(ROW_6)
  {
  }

  lemma Row7()
    ensures IsRow(ROW_7)
  {
  }

  lemma Row8()
    ensures IsRow(ROW_8)
  {
  }

  lemma Row9()
    ensures IsRow(ROW_9)
  {
  }

  lemma Row10()
    ensures IsRow(ROW_10)
  {
  }

  lemma Row11()
    ensures IsRow(ROW_11)
  {
  }

  lemma Row12()
    ensures IsRow(ROW_12)
  {
  }

  lemma Row13()
    ensures IsRow(ROW_13)
  {
  }

  lemma Row14()
    ensures IsRow(ROW_14)
  {
  }

  lemma Row15()
    ensures IsRow(ROW_15)
  {
  }

  lemma RowOf(h: bv32)
    requires h < 16
    ensures |TABLE| == 16 && IsRow(TABLE[h as int])
  {
    hide IsRow;
    TableSize(h as int);
    if
    case h == 0 => Row0();
    case h == 1 => Row1();
    case h == 2 => Row2();
    case h == 3 => Row3();
    case h == 4 => Row4();
    case h == 5 => Row5();
    case h == 6 => Row6();
    case h == 7 => Row7();
    case h == 8 => Row8();
    case h == 9 => Row9();
    case h == 10 => Row10();
    case h == 11 => Row11();
    case h == 12 => Row12();
    case h == 13 => Row13();
    case h == 14 => Row14();
    case h == 15 => Row15();
  }

  lemma EntryInRow(row: seq<bv32>, k: bv32)
    requires IsRow(row) && k < 16
    ensures row[k as int] == Xor(row[0], Eight(k))
  {
    hide Eight, Xor;
    LowDivisions();
    if
    case k == 0 =>
    case k == 1 =>
    case k == 2 =>
    case k == 3 =>
    case k == 4 =>
    case k == 5 =>
    case k == 6 =>
    case k == 7 =>
    case k == 8 =>
    case k == 9 =>
    case k == 10 =>
    case k == 11 =>
    case k == 12 =>
    case k == 13 =>
    case k == 14 =>
    case k == 15 =>
  }

  lemma FirstEntry(h: bv32)
    requires h < 16
    ensures |TABLE| == 16 && |TABLE[h as int]| == 16 && TABLE[h as int][0] == Eight(h << 4)
  {
    hide Eight;
    TableSize(h as int);
    HighDivisions();
    if
    case h == 0 =>
    case h == 1 =>
    case h == 2 =>
    case h == 3 =>
    case h == 4 =>
    case h == 5 =>
    case h == 6 =>
    case h == 7 =>
    case h == 8 =>
    case h == 9 =>
    case h == 10 =>
    case h == 11 =>
    case h == 12 =>
    case h == 13 =>
    case h == 14 =>
    case h == 15 =>
  }

  lemma NibblesMakeByte(x: bv32)
    requires x < 256
    ensures x == Xor(UpperNibble(x) << 4, LowerNibble(x))
  {
  }

  lemma EntryFrom(row: seq<bv32>, k: bv32, upper: bv32, x: bv32)
    requires IsRow(row) && k < 16 && row[0] == Eight(upper) && x == Xor(upper, k)
    ensures row[k as int] == Eight(x)
  {
    hide Eight, Xor;
    EntryInRow(row, k);
    EightLinear(upper, k);
  }

  /** Every entry of the table is what eight steps of the division make of its index. */
  lemma TableIsDivision(x: bv32)
    requires x < 256
    ensures Entry(x) == Eight(x)
  {
    hide Eight, Xor, UpperNibble, LowerNibble, IsRow;
    var h := UpperNibble(x);
    NibblesMakeByte(x);
    TableSize(h as int);
    RowOf(h);
    FirstEntry(h);
    EntryFrom(TABLE[h as int], LowerNibble(x), h << 4, x);
  }

  // ----- The checksum -----

  function Widen(byte: bv8): (w: bv32)
    ensures w < 256
  {
    byte as bv32
  }

  /** One byte of the message, bit by bit. */
  function Update(crc: bv32, byte: bv8): bv32 {
    Eight(Xor(crc, Widen(byte)))
  }

  function Fold(crc: bv32, data: seq<bv8>): bv32
    decreases |data|
  {
    if data == [] then crc else Fold(Update(crc, data[0]), data[1..])
  }

  /** The CRC of section 8 of RFC 1952. */
  function Checksum(data: seq<bv8>): bv32 {
    Xor(Fold(0xFFFFFFFF, data), 0xFFFFFFFF)
  }

  /** Updates compose over concatenation. */
  lemma {:induction false} FoldComposes(crc: bv32, a: seq<bv8>, b: seq<bv8>)
    ensures Fold(crc, a + b) == Fold(Fold(crc, a), b)
    decreases |a|
  {
    hide Update;
    if a == [] {
      assert a + b == b;
    } else {
      assert (a + b)[0] == a[0] && (a + b)[1..] == a[1..] + b;
      FoldComposes(Update(crc, a[0]), a[1..], b);
    }
  }

  /** A word is its upper three bytes and its lowest one. */
  lemma HighAndLow(y: bv32)
    ensures Xor(Up(High(y)), Low(y)) == y
  {
  }

  lemma HighKept(crc: bv32, byte: bv32)
    requires byte < 256
    ensures High(Xor(crc, byte)) == High(crc)
  {
  }

  lemma StateAndByte(crc: bv32, byte: bv32)
    requires byte < 256
    ensures Xor(crc, byte) == Xor(Up(High(crc)), Low(Xor(crc, byte)))
  {
    hide Xor, Up, High, Low;
    HighAndLow(Xor(crc, byte));
    HighKept(crc, byte);
  }

  /** Eight steps move the upper three bytes down unchanged. */
  lemma EightMovesDown(y: bv32)
    requires y < 0x1000000
    ensures Eight(Up(y)) == y
  {
  }

  /** The table step is the bitwise step. */
  lemma TableStep(crc: bv32, byte: bv8)
    ensures Xor(High(crc), Entry(Low(Xor(crc, Widen(byte))))) == Update(crc, byte)
  {
    hide Eight, Xor, Entry, High, Low, Up, Widen;
    var x := Xor(crc, Widen(byte));
    StateAndByte(crc, Widen(byte));
    EightMovesDown(High(crc));
    TableIsDivision(Low(x));
    EightLinear(Up(High(crc)), Low(x));
  }

  /** BAC::CRC32. */
  method CRC32(data: array<bv8>, length: nat) returns (crc: bv32)
    requires length <= data.Length
    ensures crc == Checksum(data[..length])
  {
    hide Update, Xor, Entry, High, Low, Widen;
    crc := 0xFFFFFFFF;
    assert data[..length] == data[0..length];
    for i := 0 to length
      invariant Fold(crc, data[i..length]) == Fold(0xFFFFFFFF, data[..length])
    {
      assert data[i..length][0] == data[i] && data[i..length][1..] == data[i + 1..length];
      TableStep(crc, data[i]);
      crc := Xor(High(crc), Entry(Low(Xor(crc, Widen(data[i])))));
    }
    crc := Xor(crc, 0xFFFFFFFF);
  }

  // ----- Detection -----

  predicate Top(x: bv32) {
    x >= 0x80000000
  }

  /** A state from its upper bits and its lowest bit. */
  function Rebuilt(half: bv32, odd: bool): bv32 {
    Xor(half << 1, Bit(odd))
  }

  function Bit(b: bool): bv32 {
    if b then 1 else 0
  }

  lemma HalvesRebuild(x: bv32)
    ensures Rebuilt(Half(x), Odd(x)) == x && !Top(Half(x))
  {
  }

  lemma TopReduced(h: bv32, odd: bool)
    requires !Top(h)
    ensures Top(Reduce(h, odd)) <==> odd
  {
  }

  lemma ReduceTwice(h: bv32, odd: bool)
    ensures Reduce(Reduce(h, odd), odd) == h
  {
  }

  /** The top bit after a step tells whether the polynomial was combined. */
  lemma ShiftInjective(a: bv32, b: bv32)
    requires a != b
    ensures Shift(a) != Shift(b)
  {
    hide Half, Odd, Reduce, Rebuilt, Top;
    HalvesRebuild(a);
    HalvesRebuild(b);
    TopReduced(Half(a), Odd(a));
    TopReduced(Half(b), Odd(b));
    ReduceTwice(Half(a), Odd(a));
    ReduceTwice(Half(b), Odd(b));
  }

  lemma EightInjective(a: bv32, b: bv32)
    requires a != b
    ensures Eight(a) != Eight(b)
  {
    hide Shift;
    var a1, b1 := Shift(a), Shift(b);
    var a2, b2 := Shift(a1), Shift(b1);
    var a3, b3 := Shift(a2), Shift(b2);
    var a4, b4 := Shift(a3), Shift(b3);
    var a5, b5 := Shift(a4), Shift(b4);
    var a6, b6 := Shift(a5), Shift(b5);
    ShiftInjective(a, b);
    ShiftInjective(a1, b1);
    ShiftInjective(a2, b2);
    ShiftInjective(a3, b3);
    ShiftInjective(a4, b4);
    ShiftInjective(a5, b5);
    ShiftInjective(a6, b6);
    ShiftInjective(Shift(a6), Shift(b6));
  }

  lemma XorInjective(a: bv32, b: bv32, c: bv32)
    requires a != b
    ensures Xor(a, c) != Xor(b, c)
  {
  }

  /** A difference between two states is never lost again. */
  lemma {:induction false} FoldInjective(a: bv32, b: bv32, data: seq<bv8>)
    requires a != b
    ensures Fold(a, data) != Fold(b, data)
    decreases |data|
  {
    hide Xor, Eight, Widen;
    if data != [] {
      var byte := Widen(data[0]);
      XorInjective(a, b, byte);
      EightInjective(Xor(a, byte), Xor(b, byte));
      FoldInjective(Update(a, data[0]), Update(b, data[0]), data[1..]);
    }
  }

  /** What is combined after eight steps may as well be combined before them. */
  lemma Absorb(x: bv32, y: bv32)
    requires y < 0x1000000
    ensures Xor(Eight(x), y) == Eight(Xor(x, Up(y)))
  {
    hide Eight, Up, Xor;
    EightMovesDown(y);
    EightLinear(x, Up(y));
  }

  lemma UpBounds(byte: bv32)
    requires byte < 256
    ensures Up(byte) < 0x1000000 && Up(Up(byte)) < 0x1000000
  {
  }

  /** A state with four bytes combined into its four bytes. */
  function Pack(c: bv32, b0: bv32, b1: bv32, b2: bv32, b3: bv32): bv32 {
    Xor(Xor(Xor(Xor(c, b0), Up(b1)), Up(Up(b2))), Up(Up(Up(b3))))
  }

  /** Four bytes at a time: they are combined with the whole state, and then divided. */
  lemma FourBytes(c: bv32, b0: bv32, b1: bv32, b2: bv32, b3: bv32)
    requires b0 < 256 && b1 < 256 && b2 < 256 && b3 < 256
    ensures Eight(Xor(Eight(Xor(Eight(Xor(Eight(Xor(c, b0)), b1)), b2)), b3))
            == Eight(Eight(Eight(Eight(Pack(c, b0, b1, b2, b3)))))
  {
    hide Eight, Up, Xor;
    UpBounds(b2);
    UpBounds(b3);
    var x0 := Xor(c, b0);
    var x1 := Xor(x0, Up(b1));
    var x2 := Xor(x1, Up(Up(b2)));
    Absorb(x0, b1);
    Absorb(Eight(x1), b2);
    Absorb(x1, Up(b2));
    Absorb(Eight(Eight(x2)), b3);
    Absorb(Eight(x2), Up(b3));
    Absorb(x2, Up(Up(b3)));
  }

  lemma UpTwice(x: bv32)
    ensures Up(Up(x)) == x << 16
  {
  }

  lemma UpThrice(x: bv32)
    ensures Up(Up(Up(x))) == x << 24
  {
  }

  lemma PackIs(c: bv32, b0: bv32, b1: bv32, b2: bv32, b3: bv32)
    ensures Pack(c, b0, b1, b2, b3) == (((c ^ b0) ^ (b1 << 8)) ^ (b2 << 16)) ^ (b3 << 24)
  {
    calc {
      Pack(c, b0, b1, b2, b3);
      { UpTwice(b2); UpThrice(b3); }
      Xor(Xor(Xor(Xor(c, b0), Up(b1)), b2 << 16), b3 << 24);
      Xor(Xor(Xor(c ^ b0, b1 << 8), b2 << 16), b3 << 24);
      Xor(Xor((c ^ b0) ^ (b1 << 8), b2 << 16), b3 << 24);
      Xor(((c ^ b0) ^ (b1 << 8)) ^ (b2 << 16), b3 << 24);
      (((c ^ b0) ^ (b1 << 8)) ^ (b2 << 16)) ^ (b3 << 24);
    }
  }

  lemma PackBits(c: bv32, b0: bv32, b1: bv32, b2: bv32, b3: bv32, d0: bv32, d1: bv32, d2: bv32, d3: bv32)
    requires b0 < 256 && b1 < 256 && b2 < 256 && b3 < 256 && d0 < 256 && d1 < 256 && d2 < 256 && d3 < 256
    requires (((c ^ b0) ^ (b1 << 8)) ^ (b2 << 16)) ^ (b3 << 24) == (((c ^ d0) ^ (d1 << 8)) ^ (d2 << 16)) ^ (d3 << 24)
    ensures b0 == d0 && b1 == d1 && b2 == d2 && b3 == d3
  {
  }

  lemma WidenInjective(a: bv8, b: bv8)
    requires Widen(a) == Widen(b)
    ensures a == b
  {
  }

  lemma FoldFour(c: bv32, w: seq<bv8>)
    requires |w| == 4
    ensures Fold(c, w) == Eight(Eight(Eight(Eight(Pack(c, Widen(w[0]), Widen(w[1]), Widen(w[2]), Widen(w[3]))))))
  {
    hide Eight, Xor, Pack, Widen;
    assert w[1..][1..] == w[2..] && w[2..][1..] == w[3..] && w[3..][1..] == [];
    var c1 := Update(c, w[0]);
    var c2 := Update(c1, w[1]);
    var c3 := Update(c2, w[2]);
    assert Fold(c, w) == Fold(c1, w[1..]) && Fold(c1, w[1..]) == Fold(c2, w[2..]);
    assert Fold(c2, w[2..]) == Fold(c3, w[3..]) && Fold(c3, w[3..]) == Fold(Update(c3, w[3]), []);
    FourBytes(c, Widen(w[0]), Widen(w[1]), Widen(w[2]), Widen(w[3]));
  }

  lemma PackInjective(c: bv32, w: seq<bv8>, v: seq<bv8>)
    requires |w| == 4 && |v| == 4
    requires Pack(c, Widen(w[0]), Widen(w[1]), Widen(w[2]), Widen(w[3]))
             == Pack(c, Widen(v[0]), Widen(v[1]), Widen(v[2]), Widen(v[3]))
    ensures w == v
  {
    hide Pack, Widen;
    var b0, b1, b2, b3 := Widen(w[0]), Widen(w[1]), Widen(w[2]), Widen(w[3]);
    var d0, d1, d2, d3 := Widen(v[0]), Widen(v[1]), Widen(v[2]), Widen(v[3]);
    PackIs(c, b0, b1, b2, b3);
    PackIs(c, d0, d1, d2, d3);
    PackBits(c, b0, b1, b2, b3, d0, d1, d2, d3);
    WidenInjective(w[0], v[0]);
    WidenInjective(w[1], v[1]);
    WidenInjective(w[2], v[2]);
    WidenInjective(w[3], v[3]);
  }

  /** Different words lead a state to different states. */
  lemma WordsDiffer(c: bv32, w: seq<bv8>, v: seq<bv8>)
    requires |w| == 4 && |v| == 4 && w != v
    ensures Fold(c, w) != Fold(c, v)
  {
    hide Eight, Pack, Widen, Fold;
    FoldFour(c, w);
    FoldFour(c, v);
    var x := Pack(c, Widen(w[0]), Widen(w[1]), Widen(w[2]), Widen(w[3]));
    var y := Pack(c, Widen(v[0]), Widen(v[1]), Widen(v[2]), Widen(v[3]));
    if x == y { PackInjective(c, w, v); }
    EightInjective(x, y);
    EightInjective(Eight(x), Eight(y));
    EightInjective(Eight(Eight(x)), Eight(Eight(y)));
    EightInjective(Eight(Eight(Eight(x))), Eight(Eight(Eight(y))));
  }

  // ----- Messages as bits -----

  /** The bits of a byte in the order in which they enter the division. */
  function Bits(byte: bv8): (bits: seq<bool>)
    ensures |bits| == 8
  {
    [byte & 0x01 != 0, byte & 0x02 != 0, byte & 0x04 != 0, byte & 0x08 != 0,
     byte & 0x10 != 0, byte & 0x20 != 0, byte & 0x40 != 0, byte & 0x80 != 0]
  }

  function AllBits(data: seq<bv8>): (bits: seq<bool>)
    ensures |bits| == 8 * |data|
  {
    if data == [] then [] else Bits(data[0]) + AllBits(data[1..])
  }

  /** One bit of the message. */
  function BitStep(crc: bv32, bit: bool): bv32 {
    Shift(Xor(crc, Bit(bit)))
  }

  function BitFold(crc: bv32, bits: seq<bool>): bv32
    decreases |bits|
  {
    if bits == [] then crc else BitFold(BitStep(crc, bits[0]), bits[1..])
  }

  lemma {:induction false} BitFoldComposes(crc: bv32, a: seq<bool>, b: seq<bool>)
    ensures BitFold(crc, a + b) == BitFold(BitFold(crc, a), b)
    decreases |a|
  {
    hide BitStep;
    if a == [] {
      assert a + b == b;
    } else {
      assert (a + b)[0] == a[0] && (a + b)[1..] == a[1..] + b;
      BitFoldComposes(BitStep(crc, a[0]), a[1..], b);
    }
  }

  function Double(x: bv32): bv32 {
    x << 1
  }

  lemma ShiftDoubled(y: bv32)
    requires !Top(y)
    ensures Shift(Double(y)) == y
  {
  }

  /** What is combined after a step may as well be combined before it. */
  lemma AbsorbStep(x: bv32, y: bv32)
    requires !Top(y)
    ensures Xor(Shift(x), y) == Shift(Xor(x, Double(y)))
  {
    hide Shift, Double, Xor, Top;
    ShiftDoubled(y);
    ShiftLinear(x, Double(y));
  }

  lemma XorAssoc(a: bv32, b: bv32, c: bv32)
    ensures Xor(Xor(a, b), c) == Xor(a, Xor(b, c))
  {
  }

  /** A bit in front of others. */
  lemma BitInFront(c: bv32, b: bool, y: bv32)
    requires !Top(y)
    ensures Xor(BitStep(c, b), y) == Shift(Xor(c, Xor(Bit(b), Double(y))))
  {
    hide Shift, Double, Xor, Top, Bit;
    AbsorbStep(Xor(c, Bit(b)), y);
    XorAssoc(c, Bit(b), Double(y));
  }

  /** Some bits as a number. */
  function Word(bits: seq<bool>): bv32
    decreases |bits|
  {
    if bits == [] then 0 else Xor(Bit(bits[0]), Double(Word(bits[1..])))
  }

  function Shifts(x: bv32, n: nat): bv32
    decreases n
  {
    if n == 0 then x else Shifts(Shift(x), n - 1)
  }

  lemma {:induction false} WordAbsorbed(c: bv32, bits: seq<bool>)
    requires forall i | 0 < i <= |bits| :: !Top(Word(bits[i..]))
    ensures BitFold(c, bits) == Shifts(Xor(c, Word(bits)), |bits|)
    decreases |bits|
  {
    hide Shift, BitStep, Xor, Double, Top, Bit;
    if bits == [] {
      XorZero(c);
    } else {
      var rest := bits[1..];
      assert bits[1..] == rest && forall i | 0 < i <= |rest| :: rest[i..] == bits[i + 1..];
      WordAbsorbed(BitStep(c, bits[0]), rest);
      BitInFront(c, bits[0], Word(rest));
    }
  }

  lemma XorZero(c: bv32)
    ensures Xor(c, 0) == c
  {
  }

  const LIMITS: seq<bv32> := [1, 2, 4, 8, 16, 32, 64, 128, 256]

  function Limit(n: nat): bv32
    requires n <= 8
  {
    LIMITS[n]
  }

  lemma FirstLimit()
    ensures Limit(0) == 1
  {
  }

  lemma LimitStep(n: nat)
    requires n < 8
    ensures Limit(n + 1) == Double(Limit(n)) && Limit(n) <= 128 && Limit(n + 1) <= 256
  {
  }

  lemma InFrontBounded(b: bool, p: bv32, l: bv32)
    requires p < l <= 128
    ensures Xor(Bit(b), Double(p)) < Double(l)
  {
  }

  lemma {:induction false} WordBounded(bits: seq<bool>)
    requires |bits| <= 8
    ensures Word(bits) < Limit(|bits|) <= 256
  {
    hide Xor, Double, Bit, Limit;
    if bits != [] {
      WordBounded(bits[1..]);
      LimitStep(|bits| - 1);
      InFrontBounded(bits[0], Word(bits[1..]), Limit(|bits| - 1));
    } else {
      FirstLimit();
    }
  }

  lemma NotTop(x: bv32)
    requires x < 0x1000
    ensures !Top(x)
  {
  }

  /** Eight bits as nested numbers. */
  function Nested(b0: bool, b1: bool, b2: bool, b3: bool, b4: bool, b5: bool, b6: bool, b7: bool): bv32 {
    Xor(Bit(b0), Double(Xor(Bit(b1), Double(Xor(Bit(b2), Double(Xor(Bit(b3),
    Double(Xor(Bit(b4), Double(Xor(Bit(b5), Double(Xor(Bit(b6), Double(Xor(Bit(b7), Double(0))))))))))))))))
  }

  lemma WordNested(s: seq<bool>)
    requires |s| == 8
    ensures Word(s) == Nested(s[0], s[1], s[2], s[3], s[4], s[5], s[6], s[7])
  {
    hide Xor, Double, Bit;
    assert s[1..][1..] == s[2..] && s[2..][1..] == s[3..] && s[3..][1..] == s[4..] && s[4..][1..] == s[5..];
    assert s[5..][1..] == s[6..] && s[6..][1..] == s[7..] && s[7..][1..] == [];
    assert Word(s[6..]) == Xor(Bit(s[6]), Double(Word(s[7..])));
    assert Word(s[5..]) == Xor(Bit(s[5]), Double(Word(s[6..])));
    assert Word(s[4..]) == Xor(Bit(s[4]), Double(Word(s[5..])));
    assert Word(s[3..]) == Xor(Bit(s[3]), Double(Word(s[4..])));
    assert Word(s[2..]) == Xor(Bit(s[2]), Double(Word(s[3..])));
    assert Word(s[1..]) == Xor(Bit(s[1]), Double(Word(s[2..])));
  }

  lemma NestedIsByte(byte: bv8)
    ensures Nested(byte & 0x01 != 0, byte & 0x02 != 0, byte & 0x04 != 0, byte & 0x08 != 0,
                   byte & 0x10 != 0, byte & 0x20 != 0, byte & 0x40 != 0, byte & 0x80 != 0) == Widen(byte)
  {
  }

  lemma EightShifts(x: bv32)
    ensures Shifts(x, 8) == Eight(x)
  {
    hide Shift;
    var a := Shift(Shift(Shift(Shift(x))));
    assert Shifts(x, 8) == Shifts(Shift(x), 7) == Shifts(Shift(Shift(x)), 6) == Shifts(Shift(Shift(Shift(x))), 5)
           == Shifts(a, 4);
    assert Shifts(a, 4) == Shifts(Shift(a), 3) == Shifts(Shift(Shift(a)), 2) == Shifts(Shift(Shift(Shift(a))), 1);
  }

  /** A byte is its bits. */
  lemma UpdateBits(crc: bv32, byte: bv8)
    ensures Update(crc, byte) == BitFold(crc, Bits(byte))
  {
    hide Shift, Xor, Eight, Word, Nested, Widen, Top, BitStep;
    var bits := Bits(byte);
    forall i | 0 < i <= |bits| ensures !Top(Word(bits[i..])) {
      WordBounded(bits[i..]);
      NotTop(Word(bits[i..]));
    }
    WordAbsorbed(crc, bits);
    WordNested(bits);
    NestedIsByte(byte);
    EightShifts(Xor(crc, Word(bits)));
  }

  lemma {:induction false} FoldBits(crc: bv32, data: seq<bv8>)
    ensures Fold(crc, data) == BitFold(crc, AllBits(data))
    decreases |data|
  {
    hide Update, Bits, BitStep;
    if data != [] {
      UpdateBits(crc, data[0]);
      FoldBits(Update(crc, data[0]), data[1..]);
      BitFoldComposes(crc, Bits(data[0]), AllBits(data[1..]));
    }
  }

  // ----- Bursts -----

  function ByteOf(s: seq<bool>): (byte: bv8)
    requires |s| == 8
  {
    (if s[0] then 0x01 else 0) | (if s[1] then 0x02 else 0) | (if s[2] then 0x04 else 0) | (if s[3] then 0x08 else 0)
    | (if s[4] then 0x10 else 0) | (if s[5] then 0x20 else 0) | (if s[6] then 0x40 else 0) | (if s[7] then 0x80 else 0)
  }

  lemma BitsOfByte(s: seq<bool>)
    requires |s| == 8
    ensures Bits(ByteOf(s)) == s
  {
  }

  /** Any thirty-two bits are four bytes, wherever they stand in the message. */
  lemma FourOfBits(w: seq<bool>) returns (data: seq<bv8>)
    requires |w| == 32
    ensures |data| == 4 && AllBits(data) == w
  {
    hide Bits, ByteOf;
    var a, b, c, d := w[..8], w[8..16], w[16..24], w[24..];
    data := [ByteOf(a), ByteOf(b), ByteOf(c), ByteOf(d)];
    BitsOfByte(a);
    BitsOfByte(b);
    BitsOfByte(c);
    BitsOfByte(d);
    assert data[1..][1..] == [data[2], data[3]] && data[1..][1..][1..] == [data[3]] && [data[3]][1..] == [];
    assert AllBits([data[3]]) == d;
    assert AllBits([data[2], data[3]]) == c + AllBits([data[3]]);
    assert AllBits(data[1..]) == b + AllBits([data[2], data[3]]);
    assert w == a + (b + (c + d));
  }

  lemma BitWordsDiffer(c: bv32, w: seq<bool>, v: seq<bool>)
    requires |w| == 32 && |v| == 32 && w != v
    ensures BitFold(c, w) != BitFold(c, v)
  {
    hide BitFold, Fold, AllBits;
    var a := FourOfBits(w);
    var b := FourOfBits(v);
    FoldBits(c, a);
    FoldBits(c, b);
    WordsDiffer(c, a, b);
  }

  lemma BitStringsDiffer(c: bv32, w: seq<bool>, v: seq<bool>)
    requires |w| == |v| <= 32 && w != v
    ensures BitFold(c, w) != BitFold(c, v)
  {
    hide BitFold;
    var zeros := seq(32 - |w|, _ => false);
    assert (w + zeros)[..|w|] == w && (v + zeros)[..|v|] == v;
    BitWordsDiffer(c, w + zeros, v + zeros);
    BitFoldComposes(c, w, zeros);
    BitFoldComposes(c, v, zeros);
  }

  lemma {:induction false} BitFoldInjective(a: bv32, b: bv32, bits: seq<bool>)
    requires a != b
    ensures BitFold(a, bits) != BitFold(b, bits)
    decreases |bits|
  {
    hide Xor, Shift, Bit;
    if bits != [] {
      XorInjective(a, b, Bit(bits[0]));
      ShiftInjective(Xor(a, Bit(bits[0])), Xor(b, Bit(bits[0])));
      BitFoldInjective(BitStep(a, bits[0]), BitStep(b, bits[0]), bits[1..]);
    }
  }

  lemma {:induction false} BitsDiffer(a: seq<bv8>, b: seq<bv8>)
    requires |a| == |b| && AllBits(a) == AllBits(b)
    ensures a == b
    decreases |a|
  {
    if a != [] {
      hide Bits;
      var p, q := AllBits(a), AllBits(b);
      assert p[..8] == Bits(a[0]) && p[8..] == AllBits(a[1..]) && q[..8] == Bits(b[0]) && q[8..] == AllBits(b[1..]);
      SameByte(a[0], b[0]);
      BitsDiffer(a[1..], b[1..]);
      assert a == [a[0]] + a[1..] && b == [b[0]] + b[1..];
    }
  }

  lemma SameByte(a: bv8, b: bv8)
    requires Bits(a) == Bits(b)
    ensures a == b
  {
    hide Nested, Bits;
    NestedIsByte(a);
    NestedIsByte(b);
    SameNested(a, b);
    WidenInjective(a, b);
  }

  lemma SameNested(a: bv8, b: bv8)
    requires Bits(a) == Bits(b)
    ensures Nested(a & 0x01 != 0, a & 0x02 != 0, a & 0x04 != 0, a & 0x08 != 0, a & 0x10 != 0, a & 0x20 != 0,
                   a & 0x40 != 0, a & 0x80 != 0)
            == Nested(b & 0x01 != 0, b & 0x02 != 0, b & 0x04 != 0, b & 0x08 != 0, b & 0x10 != 0, b & 0x20 != 0,
                      b & 0x40 != 0, b & 0x80 != 0)
  {
    hide Nested;
    var p, q := Bits(a), Bits(b);
    assert p[0] == q[0] && p[1] == q[1] && p[2] == q[2] && p[3] == q[3] && p[4] == q[4] && p[5] == q[5] && p[6] == q[6]
           && p[7] == q[7];
  }

  lemma BitWindow(c: bv32, bits: seq<bool>, from: nat, to: nat)
    requires from <= to <= |bits|
    ensures BitFold(c, bits) == BitFold(BitFold(BitFold(c, bits[..from]), bits[from..to]), bits[to..])
  {
    hide BitFold;
    assert bits == bits[..to] + bits[to..] && bits[..to] == bits[..from] + bits[from..to];
    BitFoldComposes(c, bits[..to], bits[to..]);
    BitFoldComposes(c, bits[..from], bits[from..to]);
  }

  lemma WindowsDiffer(p: seq<bool>, q: seq<bool>, from: nat, to: nat)
    requires |p| == |q| && p != q && from <= to <= |p| && to <= from + 32
    requires forall k | 0 <= k < |p| && !(from <= k < to) :: p[k] == q[k]
    ensures BitFold(0xFFFFFFFF, p) != BitFold(0xFFFFFFFF, q)
  {
    hide BitFold;
    assert p[..from] == q[..from] && p[to..] == q[to..];
    var c := BitFold(0xFFFFFFFF, p[..from]);
    BitWindow(0xFFFFFFFF, p, from, to);
    BitWindow(0xFFFFFFFF, q, from, to);
    BitStringsDiffer(c, p[from..to], q[from..to]);
    BitFoldInjective(BitFold(c, p[from..to]), BitFold(c, q[from..to]), p[to..]);
  }

  /** Two messages of the same length that differ, but only inside thirty-two consecutive bits, wherever these begin,
      have different checksums. */
  lemma BurstsAreDetected(a: seq<bv8>, b: seq<bv8>, s: nat)
    requires |a| == |b| && a != b
    requires forall k | 0 <= k < 8 * |a| && !(s <= k < s + 32) :: AllBits(a)[k] == AllBits(b)[k]
    ensures Checksum(a) != Checksum(b)
  {
    hide Fold, BitFold, AllBits, Xor;
    var p, q, n := AllBits(a), AllBits(b), 8 * |a|;
    if p == q { BitsDiffer(a, b); }
    var from, to := if s < n then s else n, if s + 32 < n then s + 32 else n;
    WindowsDiffer(p, q, from, to);
    FoldBits(0xFFFFFFFF, a);
    FoldBits(0xFFFFFFFF, b);
    XorInjective(Fold(0xFFFFFFFF, a), Fold(0xFFFFFFFF, b), 0xFFFFFFFF);
  }

  // ----- Five bytes -----

  lemma PackSplits(c: bv32, b0: bv32, b1: bv32, b2: bv32, b3: bv32)
    ensures Pack(c, b0, b1, b2, b3) == Xor(c, Pack(0, b0, b1, b2, b3))
  {
    hide Xor, Up;
    XorZero(0);
    var u1, u2, u3 := Up(b1), Up(Up(b2)), Up(Up(Up(b3)));
    var x0 := Xor(0, b0);
    var x1 := Xor(x0, u1);
    var x2 := Xor(x1, u2);
    ZeroXor(b0);
    XorAssoc(c, x0, u1);
    XorAssoc(c, x1, u2);
    XorAssoc(c, x2, u3);
  }

  lemma ZeroXor(x: bv32)
    ensures Xor(0, x) == x
  {
  }

  /** An equation of sums, with its terms on other sides. */
  lemma XorEquation(a: bv32, p: bv32, b: bv32, q: bv32)
    ensures Xor(a, p) == Xor(b, q) <==> Xor(a, b) == Xor(p, q)
  {
    if Xor(a, p) == Xor(b, q) { XorSwap(a, p, b, q); }
    if Xor(a, b) == Xor(p, q) { XorSwap(a, b, p, q); }
  }

  lemma XorSwap(a: bv32, p: bv32, b: bv32, q: bv32)
    requires Xor(a, p) == Xor(b, q)
    ensures Xor(a, b) == Xor(p, q)
  {
    hide Xor;
    calc {
      Xor(a, b);
      { XorBoth(a, b, p); }
      Xor(Xor(a, p), Xor(b, p));
      Xor(Xor(b, q), Xor(b, p));
      { XorCommon(b, q, p); }
      Xor(q, p);
      { XorFlip(q, p); }
      Xor(p, q);
    }
  }

  lemma XorFlip(a: bv32, b: bv32)
    ensures Xor(a, b) == Xor(b, a)
  {
  }

  lemma XorCommon(c: bv32, a: bv32, b: bv32)
    ensures Xor(Xor(c, a), Xor(c, b)) == Xor(a, b)
  {
    calc {
      Xor(Xor(c, a), Xor(c, b));
      Xor(c ^ a, c ^ b);
      (c ^ a) ^ (c ^ b);
      a ^ b;
      Xor(a, b);
    }
  }

  /** The last four of five bytes, combined into one word. */
  function LastFour(w: seq<bv8>): bv32
    requires |w| == 5
  {
    Pack(0, Widen(w[1]), Widen(w[2]), Widen(w[3]), Widen(w[4]))
  }

  lemma FoldFive(c: bv32, w: seq<bv8>)
    requires |w| == 5
    ensures Fold(c, w) == Eight(Eight(Eight(Eight(Xor(Update(c, w[0]), LastFour(w))))))
  {
    hide Eight, Xor, Pack, Widen, Fold, Update;
    assert w == [w[0]] + w[1..];
    FoldComposes(c, [w[0]], w[1..]);
    FoldOne(c, w[0]);
    FoldFour(Update(c, w[0]), w[1..]);
    PackSplits(Update(c, w[0]), Widen(w[1]), Widen(w[2]), Widen(w[3]), Widen(w[4]));
  }

  lemma FoldOne(c: bv32, byte: bv8)
    ensures Fold(c, [byte]) == Update(c, byte)
  {
    hide Update;
    assert [byte][1..] == [];
    assert Fold(Update(c, byte), []) == Update(c, byte);
  }

  lemma EightIff(a: bv32, b: bv32)
    ensures Eight(a) == Eight(b) <==> a == b
  {
    hide Eight;
    if a != b { EightInjective(a, b); }
  }

  /** With five bytes the checksum can miss a difference: exactly when the difference of the last four is what eight
      steps make of the difference of the first. */
  lemma FiveBytesCollideExactly(front: seq<bv8>, w: seq<bv8>, v: seq<bv8>, back: seq<bv8>)
    requires |w| == 5 && |v| == 5
    ensures Checksum(front + w + back) == Checksum(front + v + back)
            <==> Eight(Xor(Widen(w[0]), Widen(v[0]))) == Xor(LastFour(w), LastFour(v))
  {
    hide Eight, Xor, Pack, Widen, Fold, LastFour;
    var c := Fold(0xFFFFFFFF, front);
    ThreeParts(front, w, back);
    ThreeParts(front, v, back);
    SameChecksum(Fold(c, w), Fold(c, v), back);
    FoldFive(c, w);
    FoldFive(c, v);
    var x, y := Xor(Update(c, w[0]), LastFour(w)), Xor(Update(c, v[0]), LastFour(v));
    EightIff(x, y);
    EightIff(Eight(x), Eight(y));
    EightIff(Eight(Eight(x)), Eight(Eight(y)));
    EightIff(Eight(Eight(Eight(x))), Eight(Eight(Eight(y))));
    XorEquation(Update(c, w[0]), LastFour(w), Update(c, v[0]), LastFour(v));
    EightLinear(Xor(c, Widen(w[0])), Xor(c, Widen(v[0])));
    XorCommon(c, Widen(w[0]), Widen(v[0]));
  }

  lemma ThreeParts(a: seq<bv8>, b: seq<bv8>, c: seq<bv8>)
    ensures Checksum(a + b + c) == Xor(Fold(Fold(Fold(0xFFFFFFFF, a), b), c), 0xFFFFFFFF)
  {
    hide Fold, Xor;
    FoldComposes(0xFFFFFFFF, a + b, c);
    FoldComposes(0xFFFFFFFF, a, b);
  }

  lemma SameChecksum(x: bv32, y: bv32, back: seq<bv8>)
    ensures Xor(Fold(x, back), 0xFFFFFFFF) == Xor(Fold(y, back), 0xFFFFFFFF) <==> x == y
  {
    hide Fold, Xor;
    if x != y {
      FoldInjective(x, y, back);
      XorInjective(Fold(x, back), Fold(y, back), 0xFFFFFFFF);
    }
  }

  /** For instance. */
  lemma FiveBytesMayCollide()
    ensures Checksum([0, 0, 0, 0, 0]) == Checksum([1, 0x96, 0x30, 0x07, 0x77])
  {
  }
}
