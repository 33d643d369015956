// CRC-16/MODBUS (section 6.2.2 of MODBUS over Serial Line V1.02): the bitwise and the
// table-driven builds of crc16_, their equality, and the errors the checksum detects.
module Crc16 {
  import opened Bytes
  import opened Xors

  const POLY: nat := 0xA001

  // One turn of the inner loop.
  function Shift(c: nat): nat {
    if c % 2 == 1 then Xor(c / 2, POLY) else c / 2
  }

  function Steps(c: nat, n: nat): nat
    decreases n, c
  {
    if n == 0 then c else Shift(Steps(c, n - 1))
  }

  // The register after one more byte.
  function Feed(c: nat, b: byte): nat {
    Steps(Xor(c, b), 8)
  }

  function Run(c: nat, s: seq<byte>): nat {
    if s == [] then c else Feed(Run(c, s[..|s| - 1]), s[|s| - 1])
  }

  function Checksum(s: seq<byte>): (crc: nat)
    ensures crc < 0x1_0000
  {
    RunBound(0xFFFF, s);
    Run(0xFFFF, s)
  }

  // ---- Width of the register -----------------------------------------------------------

  lemma XorBound16(a: nat, b: nat)
    requires a < 0x1_0000 && b < 0x1_0000
    ensures Xor(a, b) < 0x1_0000
  {
    Pow2Values();
    XorBound(a, b, 16);
  }

  lemma {:induction false} StepsBound(c: nat, n: nat)
    requires c < 0x1_0000
    ensures Steps(c, n) < 0x1_0000
  {
    hide Xor;
    if n > 0 {
      StepsBound(c, n - 1);
      XorBound16(Steps(c, n - 1) / 2, POLY);
    }
  }

  lemma {:induction false} RunBound(c: nat, s: seq<byte>)
    requires c < 0x1_0000
    ensures Run(c, s) < 0x1_0000
  {
    hide Xor;
    if s != [] {
      RunBound(c, s[..|s| - 1]);
      XorBound16(Run(c, s[..|s| - 1]), s[|s| - 1]);
      StepsBound(Xor(Run(c, s[..|s| - 1]), s[|s| - 1]), 8);
    }
  }

  lemma {:induction false} RunAppend(c: nat, a: seq<byte>, b: seq<byte>)
    ensures Run(c, a + b) == Run(Run(c, a), b)
  {
    hide Xor;
    if b == [] {
      assert a + b == a;
    } else {
      assert (a + b)[..|a + b| - 1] == a + b[..|b| - 1];
      RunAppend(c, a, b[..|b| - 1]);
    }
  }

  // ---- Linearity over exclusive or --------------------------------------------------------

  lemma ShiftXor(a: nat, b: nat)
    ensures Shift(Xor(a, b)) == Xor(Shift(a), Shift(b))
  {
    hide Xor;
    var x, y := a / 2, b / 2;
    XorHalf(a, b);
    if a % 2 == 1 && b % 2 == 1 {
      XorCancel(x, y, POLY);
    } else if a % 2 == 1 {
      XorAssoc(x, POLY, y);
      XorComm(POLY, y);
      XorAssoc(x, y, POLY);
    } else if b % 2 == 1 {
      XorAssoc(x, y, POLY);
    }
  }

  lemma {:induction false} StepsXor(a: nat, b: nat, n: nat)
    ensures Steps(Xor(a, b), n) == Xor(Steps(a, n), Steps(b, n))
  {
    hide Xor;
    if n > 0 {
      StepsXor(a, b, n - 1);
      ShiftXor(Steps(a, n - 1), Steps(b, n - 1));
    }
  }

  // ---- The bitwise build --------------------------------------------------------------------

  method Crc16Bitwise(buf: array<byte>, from: nat, len: nat) returns (crc: nat)
    requires from + len <= buf.Length
    ensures crc == Checksum(buf[from..from + len])
  {
    crc := 0xFFFF;
    for i := 0 to len
      invariant crc == Run(0xFFFF, buf[from..from + i])
    {
      ghost var before := crc;
      crc := Xor(crc, buf[from + i]);
      for b := 0 to 8
        invariant crc == Steps(Xor(before, buf[from + i]), b)
      {
        if crc % 2 == 1 {
          crc := Xor(crc / 2, 0xA001);
        } else {
          crc := crc / 2;
        }
      }
      assert buf[from..from + i + 1][..i] == buf[from..from + i];
    }
  }

  // ---- The table-driven build -----------------------------------------------------------------

  const ROW_00: seq<int> := [0x0000, 0xC0C1, 0xC181, 0x0140, 0xC301, 0x03C0, 0x0280, 0xC241]
  const ROW_01: seq<int> := [0xC601, 0x06C0, 0x0780, 0xC741, 0x0500, 0xC5C1, 0xC481, 0x0440]
  const ROW_02: seq<int> := [0xCC01, 0x0CC0, 0x0D80, 0xCD41, 0x0F00, 0xCFC1, 0xCE81, 0x0E40]
  const ROW_03: seq<int> := [0x0A00, 0xCAC1, 0xCB81, 0x0B40, 0xC901, 0x09C0, 0x0880, 0xC841]
  const ROW_04: seq<int> := [0xD801, 0x18C0, 0x1980, 0xD941, 0x1B00, 0xDBC1, 0xDA81, 0x1A40]
  const ROW_05: seq<int> := [0x1E00, 0xDEC1, 0xDF81, 0x1F40, 0xDD01, 0x1DC0, 0x1C80, 0xDC41]
  const ROW_06: seq<int> := [0x1400, 0xD4C1, 0xD581, 0x1540, 0xD701, 0x17C0, 0x1680, 0xD641]
  const ROW_07: seq<int> := [0xD201, 0x12C0, 0x1380, 0xD341, 0x1100, 0xD1C1, 0xD081, 0x1040]
  const ROW_08: seq<int> := [0xF001, 0x30C0, 0x3180, 0xF141, 0x3300, 0xF3C1, 0xF281, 0x3240]
  const ROW_09: seq<int> := [0x3600, 0xF6C1, 0xF781, 0x3740, 0xF501, 0x35C0, 0x3480, 0xF441]
  const ROW_10: seq<int> := [0x3C00, 0xFCC1, 0xFD81, 0x3D40, 0xFF01, 0x3FC0, 0x3E80, 0xFE41]
  const ROW_11: seq<int> := [0xFA01, 0x3AC0, 0x3B80, 0xFB41, 0x3900, 0xF9C1, 0xF881, 0x3840]
  const ROW_12: seq<int> := [0x2800, 0xE8C1, 0xE981, 0x2940, 0xEB01, 0x2BC0, 0x2A80, 0xEA41]
  const ROW_13: seq<int> := [0xEE01, 0x2EC0, 0x2F80, 0xEF41, 0x2D00, 0xEDC1, 0xEC81, 0x2C40]
  const ROW_14: seq<int> := [0xE401, 0x24C0, 0x2580, 0xE541, 0x2700, 0xE7C1, 0xE681, 0x2640]
  const ROW_15: seq<int> := [0x2200, 0xE2C1, 0xE381, 0x2340, 0xE101, 0x21C0, 0x2080, 0xE041]
  const ROW_16: seq<int> := [0xA001, 0x60C0, 0x6180, 0xA141, 0x6300, 0xA3C1, 0xA281, 0x6240]
  const ROW_17: seq<int> := [0x6600, 0xA6C1, 0xA781, 0x6740, 0xA501, 0x65C0, 0x6480, 0xA441]
  const ROW_18: seq<int> := [0x6C00, 0xACC1, 0xAD81, 0x6D40, 0xAF01, 0x6FC0, 0x6E80, 0xAE41]
  const ROW_19: seq<int> := [0xAA01, 0x6AC0, 0x6B80, 0xAB41, 0x6900, 0xA9C1, 0xA881, 0x6840]
  const ROW_20: seq<int> := [0x7800, 0xB8C1, 0xB981, 0x7940, 0xBB01, 0x7BC0, 0x7A80, 0xBA41]
  const ROW_21: seq<int> := [0xBE01, 0x7EC0, 0x7F80, 0xBF41, 0x7D00, 0xBDC1, 0xBC81, 0x7C40]
  const ROW_22: seq<int> := [0xB401, 0x74C0, 0x7580, 0xB541, 0x7700, 0xB7C1, 0xB681, 0x7640]
  const ROW_23: seq<int> := [0x7200, 0xB2C1, 0xB381, 0x7340, 0xB101, 0x71C0, 0x7080, 0xB041]
  const ROW_24: seq<int> := [0x5000, 0x90C1, 0x9181, 0x5140, 0x9301, 0x53C0, 0x5280, 0x9241]
  const ROW_25: seq<int> := [0x9601, 0x56C0, 0x5780, 0x9741, 0x5500, 0x95C1, 0x9481, 0x5440]
  const ROW_26: seq<int> := [0x9C01, 0x5CC0, 0x5D80, 0x9D41, 0x5F00, 0x9FC1, 0x9E81, 0x5E40]
  const ROW_27: seq<int> := [0x5A00, 0x9AC1, 0x9B81, 0x5B40, 0x9901, 0x59C0, 0x5880, 0x9841]
  const ROW_28: seq<int> := [0x8801, 0x48C0, 0x4980, 0x8941, 0x4B00, 0x8BC1, 0x8A81, 0x4A40]
  const ROW_29: seq<int> := [0x4E00, 0x8EC1, 0x8F81, 0x4F40, 0x8D01, 0x4DC0, 0x4C80, 0x8C41]
  const ROW_30: seq<int> := [0x4400, 0x84C1, 0x8581, 0x4540, 0x8701, 0x47C0, 0x4680, 0x8641]
  const ROW_31: seq<int> := [0x8201, 0x42C0, 0x4380, 0x8341, 0x4100, 0x81C1, 0x8081, 0x4040]

  const ROWS: seq<seq<int>> := [
    ROW_00, ROW_01, ROW_02, ROW_03, ROW_04, ROW_05, ROW_06, ROW_07,
    ROW_08, ROW_09, ROW_10, ROW_11, ROW_12, ROW_13, ROW_14, ROW_15,
    ROW_16, ROW_17, ROW_18, ROW_19, ROW_20, ROW_21, ROW_22, ROW_23,
    ROW_24, ROW_25, ROW_26, ROW_27, ROW_28, ROW_29, ROW_30, ROW_31]

  // crc_tab_
  const CRC_TAB: seq<int> := Flatten(ROWS)

  method Crc16Table(buf: array<byte>, from: nat, len: nat) returns (crc: nat)
    requires from + len <= buf.Length
    ensures crc == Checksum(buf[from..from + len])
  {
    crc := 0xFFFF;
    for i := 0 to len
      invariant crc == Run(0xFFFF, buf[from..from + i])
    {
      TableRecurs();
      TableStep(CRC_TAB, crc, buf[from + i], 8);
      crc := Xor(crc / 0x100, CRC_TAB[Xor(crc, buf[from + i]) % 0x100]);
      assert buf[from..from + i + 1][..i] == buf[from..from + i];
    }
  }

  // The table obeys two recurrences: entry y is entry 2y shifted once more, and entry
  // 2y + 1 is entry 2y with entry 1 added in. These are checked row by row on its entries;
  // that each entry is what eight shifts make of its index follows by induction.

  ghost predicate Recurs(f: int -> int, g: int -> int, t: seq<int>) {
    && |t| == 0x100
    && t[0] == 0
    && forall y | 0 <= y < 0x80 :: RecursAt(f, g, t, y)
  }

  ghost predicate RecursAt(f: int -> int, g: int -> int, t: seq<int>, y: nat)
    requires |t| == 0x100 && y < 0x80
  {
    && t[y] == f(t[2 * y])
    && 0 <= t[2 * y] < 0x1_0000
    && t[2 * y + 1] == g(t[2 * y])
  }

  // The change that flipping the bit of weight w makes to x.
  function Bump(x: int, w: int): int
    requires w > 0
  {
    if x / w % 2 == 1 then -w else w
  }

  // Exclusive or with 0xA001, as three bit flips.
  function FlipPoly(x: int): int { x + Bump(x, 0x8000) + Bump(x, 0x2000) + Bump(x, 1) }

  // Exclusive or with 0xC0C1, as five bit flips.
  function FlipFirst(x: int): int {
    x + Bump(x, 0x8000) + Bump(x, 0x4000) + Bump(x, 0x80) + Bump(x, 0x40) + Bump(x, 1)
  }

  function Shifted(t: int): int { if t % 2 == 0 then t / 2 else FlipPoly(t / 2) }

  ghost predicate HalvesOf(f: int -> int, row: seq<int>, low: seq<int>, high: seq<int>) {
    && |row| == |low| == |high| == 8
    && row == [f(low[0]), f(low[2]), f(low[4]), f(low[6]),
               f(high[0]), f(high[2]), f(high[4]), f(high[6])]
  }

  ghost predicate Odds(g: int -> int, row: seq<int>) {
    && |row| == 8
    && 0 <= row[0] < 0x1_0000 && 0 <= row[2] < 0x1_0000
    && 0 <= row[4] < 0x1_0000 && 0 <= row[6] < 0x1_0000
    && row[1] == g(row[0]) && row[3] == g(row[2]) && row[5] == g(row[4]) && row[7] == g(row[6])
  }

  ghost predicate RowRecurs(f: int -> int, g: int -> int,
                            row: seq<int>, low: seq<int>, high: seq<int>) {
    HalvesOf(f, row, low, high) && Odds(g, low) && Odds(g, high)
  }

  lemma Row00() ensures RowRecurs(Shifted, FlipFirst, ROW_00, ROW_00, ROW_01) {}

  lemma Row01() ensures RowRecurs(Shifted, FlipFirst, ROW_01, ROW_02, ROW_03) {}

  lemma Row02() ensures RowRecurs(Shifted, FlipFirst, ROW_02, ROW_04, ROW_05) {}

  lemma Row03() ensures RowRecurs(Shifted, FlipFirst, ROW_03, ROW_06, ROW_07) {}

  lemma Row04() ensures RowRecurs(Shifted, FlipFirst, ROW_04, ROW_08, ROW_09) {}

  lemma Row05() ensures RowRecurs(Shifted, FlipFirst, ROW_05, ROW_10, ROW_11) {}

  lemma Row06() ensures RowRecurs(Shifted, FlipFirst, ROW_06, ROW_12, ROW_13) {}

  lemma Row07() ensures RowRecurs(Shifted, FlipFirst, ROW_07, ROW_14, ROW_15) {}

  lemma Row08() ensures RowRecurs(Shifted, FlipFirst, ROW_08, ROW_16, ROW_17) {}

  lemma Row09() ensures RowRecurs(Shifted, FlipFirst, ROW_09, ROW_18, ROW_19) {}

  lemma Row10() ensures RowRecurs(Shifted, FlipFirst, ROW_10, ROW_20, ROW_21) {}

  lemma Row11() ensures RowRecurs(Shifted, FlipFirst, ROW_11, ROW_22, ROW_23) {}

  lemma Row12() ensures RowRecurs(Shifted, FlipFirst, ROW_12, ROW_24, ROW_25) {}

  lemma Row13() ensures RowRecurs(Shifted, FlipFirst, ROW_13, ROW_26, ROW_27) {}

  lemma Row14() ensures RowRecurs(Shifted, FlipFirst, ROW_14, ROW_28, ROW_29) {}

  lemma Row15() ensures RowRecurs(Shifted, FlipFirst, ROW_15, ROW_30, ROW_31) {}

  lemma RowsInOrder()
    ensures |ROWS| == 32
    ensures ROWS[0] == ROW_00
    ensures ROWS[1] == ROW_01
    ensures ROWS[2] == ROW_02
    ensures ROWS[3] == ROW_03
    ensures ROWS[4] == ROW_04
    ensures ROWS[5] == ROW_05
    ensures ROWS[6] == ROW_06
    ensures ROWS[7] == ROW_07
    ensures ROWS[8] == ROW_08
    ensures ROWS[9] == ROW_09
    ensures ROWS[10] == ROW_10
    ensures ROWS[11] == ROW_11
    ensures ROWS[12] == ROW_12
    ensures ROWS[13] == ROW_13
    ensures ROWS[14] == ROW_14
    ensures ROWS[15] == ROW_15
    ensures ROWS[16] == ROW_16
    ensures ROWS[17] == ROW_17
    ensures ROWS[18] == ROW_18
    ensures ROWS[19] == ROW_19
    ensures ROWS[20] == ROW_20
    ensures ROWS[21] == ROW_21
    ensures ROWS[22] == ROW_22
    ensures ROWS[23] == ROW_23
    ensures ROWS[24] == ROW_24
    ensures ROWS[25] == ROW_25
    ensures ROWS[26] == ROW_26
    ensures ROWS[27] == ROW_27
    ensures ROWS[28] == ROW_28
    ensures ROWS[29] == ROW_29
    ensures ROWS[30] == ROW_30
    ensures ROWS[31] == ROW_31
  {}

  ghost predicate RowsRecur(f: int -> int, g: int -> int, rows: seq<seq<int>>) {
    && |rows| == 32
    && forall r | 0 <= r < 16 :: RowRecurs(f, g, rows[r], rows[2 * r], rows[2 * r + 1])
  }

  lemma AllRows(f: int -> int, g: int -> int, rows: seq<seq<int>>)
    requires |rows| == 32
    requires RowRecurs(f, g, rows[0], rows[0], rows[1])
    requires RowRecurs(f, g, rows[1], rows[2], rows[3])
    requires RowRecurs(f, g, rows[2], rows[4], rows[5])
    requires RowRecurs(f, g, rows[3], rows[6], rows[7])
    requires RowRecurs(f, g, rows[4], rows[8], rows[9])
    requires RowRecurs(f, g, rows[5], rows[10], rows[11])
    requires RowRecurs(f, g, rows[6], rows[12], rows[13])
    requires RowRecurs(f, g, rows[7], rows[14], rows[15])
    requires RowRecurs(f, g, rows[8], rows[16], rows[17])
    requires RowRecurs(f, g, rows[9], rows[18], rows[19])
    requires RowRecurs(f, g, rows[10], rows[20], rows[21])
    requires RowRecurs(f, g, rows[11], rows[22], rows[23])
    requires RowRecurs(f, g, rows[12], rows[24], rows[25])
    requires RowRecurs(f, g, rows[13], rows[26], rows[27])
    requires RowRecurs(f, g, rows[14], rows[28], rows[29])
    requires RowRecurs(f, g, rows[15], rows[30], rows[31])
    ensures RowsRecur(f, g, rows)
  {
    forall r | 0 <= r < 16 ensures RowRecurs(f, g, rows[r], rows[2 * r], rows[2 * r + 1]) {
      if r == 0 {} else if r == 1 {} else if r == 2 {} else if r == 3 {}
      else if r == 4 {} else if r == 5 {} else if r == 6 {} else if r == 7 {}
      else if r == 8 {} else if r == 9 {} else if r == 10 {} else if r == 11 {}
      else if r == 12 {} else if r == 13 {} else if r == 14 {} else {}
    }
  }

  lemma {:induction false} FlattenRows(rows: seq<seq<int>>, i: nat)
    requires forall r | 0 <= r < |rows| :: |rows[r]| == 8
    requires i < 8 * |rows|
    ensures |Flatten(rows)| == 8 * |rows|
    ensures Flatten(rows)[i] == rows[i / 8][i % 8]
  {
    if |rows| > 1 {
      FlattenRows(rows[1..], if i < 8 then 0 else i - 8);
    } else {
      assert rows[1..] == [];
    }
  }

  lemma RowsMakeTable(f: int -> int, g: int -> int, rows: seq<seq<int>>, t: seq<int>, y: nat)
    requires |rows| == 32 && y < 0x80 && t == Flatten(rows)
    requires forall r | 0 <= r < 32 :: |rows[r]| == 8
    requires RowRecurs(f, g, rows[y / 8], rows[2 * (y / 8)], rows[2 * (y / 8) + 1])
    ensures |t| == 0x100 && RecursAt(f, g, t, y)
  {
    hide Flatten, RowRecurs;
    FlattenRows(rows, y);
    FlattenRows(rows, 2 * y);
    FlattenRows(rows, 2 * y + 1);
    RowIndex(y);
    RowAt(f, g, rows[y / 8], rows[2 * (y / 8)], rows[2 * (y / 8) + 1], y % 8);
  }

  lemma RowAt(f: int -> int, g: int -> int, row: seq<int>, low: seq<int>, high: seq<int>, k: nat)
    requires RowRecurs(f, g, row, low, high) && k < 8
    ensures |row| == |low| == |high| == 8
    ensures var half, j := if k < 4 then low else high, 2 * (k % 4);
            row[k] == f(half[j]) && 0 <= half[j] < 0x1_0000 && half[j + 1] == g(half[j])
  {
    if k == 0 {} else if k == 1 {} else if k == 2 {} else if k == 3 {}
    else if k == 4 {} else if k == 5 {} else if k == 6 {} else {}
  }

  lemma RowIndex(y: nat)
    requires y < 0x80
    ensures 2 * y / 8 == y / 4 == 2 * (y / 8) + y % 8 / 4
    ensures 2 * y % 8 == 2 * (y % 8 % 4) == 2 * (y % 4)
    ensures (2 * y + 1) / 8 == y / 4 && (2 * y + 1) % 8 == 2 * (y % 4) + 1
  {}

  lemma TableRecurs()
    ensures Recurs(Shifted, FlipFirst, CRC_TAB)
  {
    RowsInOrder();
    Row00(); Row01(); Row02(); Row03(); Row04(); Row05(); Row06(); Row07();
    Row08(); Row09(); Row10(); Row11(); Row12(); Row13(); Row14(); Row15();
    AllRows(Shifted, FlipFirst, ROWS);
    TableFromRows(Shifted, FlipFirst, ROWS, CRC_TAB);
  }

  lemma TableFromRows(f: int -> int, g: int -> int, rows: seq<seq<int>>, t: seq<int>)
    requires RowsRecur(f, g, rows) && t == Flatten(rows) && |rows[0]| > 0 && rows[0][0] == 0
    ensures Recurs(f, g, t)
  {
    forall r | 0 <= r < 32 ensures |rows[r]| == 8 {
      assert RowRecurs(f, g, rows[r / 2], rows[2 * (r / 2)], rows[2 * (r / 2) + 1]);
    }
    FlattenRows(rows, 0);
    forall y | 0 <= y < 0x80 ensures RecursAt(f, g, t, y) {
      assert RowRecurs(f, g, rows[y / 8], rows[2 * (y / 8)], rows[2 * (y / 8) + 1]);
      RowsMakeTable(f, g, rows, t, y);
    }
  }

  lemma Flip8000(x: nat)
    ensures x + Bump(x, 0x8000) >= 0 && Xor(x, 0x8000) == x + Bump(x, 0x8000)
  {
    hide Xor;
    Pow2Values();
    XorPow2(x, x / 0x8000, x % 0x8000, 0x8000, 15);
  }

  lemma Flip4000(x: nat)
    ensures x + Bump(x, 0x4000) >= 0 && Xor(x, 0x4000) == x + Bump(x, 0x4000)
  {
    hide Xor;
    Pow2Values();
    XorPow2(x, x / 0x4000, x % 0x4000, 0x4000, 14);
  }

  lemma Flip2000(x: nat)
    ensures x + Bump(x, 0x2000) >= 0 && Xor(x, 0x2000) == x + Bump(x, 0x2000)
  {
    hide Xor;
    Pow2Values();
    XorPow2(x, x / 0x2000, x % 0x2000, 0x2000, 13);
  }

  lemma Flip80(x: nat)
    ensures x + Bump(x, 0x80) >= 0 && Xor(x, 0x80) == x + Bump(x, 0x80)
  {
    hide Xor;
    Pow2Values();
    XorPow2(x, x / 0x80, x % 0x80, 0x80, 7);
  }

  lemma Flip40(x: nat)
    ensures x + Bump(x, 0x40) >= 0 && Xor(x, 0x40) == x + Bump(x, 0x40)
  {
    hide Xor;
    Pow2Values();
    XorPow2(x, x / 0x40, x % 0x40, 0x40, 6);
  }

  lemma Flip1(x: nat)
    ensures x + Bump(x, 1) >= 0 && Xor(x, 1) == x + Bump(x, 1)
  {
    hide Xor;
    XorOne(x);
  }

  lemma FlipPolyIsXor(x: nat)
    ensures FlipPoly(x) == Xor(x, POLY)
  {
    hide Xor;
    Flip8000(x);
    var a := x + Bump(x, 0x8000);
    Flip2000(a);
    var b := a + Bump(a, 0x2000);
    Flip1(b);
    BumpsPoly(x, a, b);
    PolyParts(x);
  }

  lemma PolyParts(x: nat)
    ensures Xor(x, POLY) == Xor(Xor(Xor(x, 0x8000), 0x2000), 1)
  {
    hide Xor;
    Pow2Values();
    XorParts(x, 0x8000, 0x2000, 15, 1);
    XorParts(x, 0xA000, 1, 1, 0x5000);
  }

  lemma BumpsPoly(x: nat, a: int, b: int)
    requires a == x + Bump(x, 0x8000) && a >= 0 && b == a + Bump(a, 0x2000)
    ensures FlipPoly(x) == b + Bump(b, 1)
  {}

  // Exclusive or with h and then with l is exclusive or with their sum, if they are disjoint.
  lemma XorParts(x: nat, h: nat, l: nat, n: nat, q: nat)
    requires h == Pow2(n) * q && l < Pow2(n)
    ensures Xor(Xor(x, h), l) == Xor(x, h + l)
  {
    hide Xor;
    XorAssoc(x, h, l);
    XorDisjoint(q, l, n);
  }

  lemma FlipFirstIsXor(x: nat)
    ensures FlipFirst(x) == Xor(x, 0xC0C1)
  {
    hide Xor;
    var b := Xor(Xor(x, 0x8000), 0x4000);
    FlipTwo(x, b);
    FlipThree(b);
    BumpKept80(x, b - x);
    BumpKept40(x, b - x);
    BumpKept1(x, b - x);
    FirstParts(x);
  }

  lemma FlipTwo(x: nat, b: nat)
    requires b == Xor(Xor(x, 0x8000), 0x4000)
    ensures b == x + Bump(x, 0x8000) + Bump(x, 0x4000)
    ensures (b - x) % 0x4000 == 0
  {
    hide Xor;
    Flip8000(x);
    Flip4000(x + Bump(x, 0x8000));
    BumpKept4000(x, Bump(x, 0x8000));
  }

  lemma FlipThree(b: nat)
    ensures Xor(Xor(Xor(b, 0x80), 0x40), 1) == b + Bump(b, 0x80) + Bump(b, 0x40) + Bump(b, 1)
  {
    hide Xor;
    Flip80(b);
    var c := b + Bump(b, 0x80);
    Flip40(c);
    Flip1(c + Bump(c, 0x40));
    BumpKept40(b, c - b);
    BumpKept1(b, c + Bump(c, 0x40) - b);
  }

  lemma FirstParts(x: nat)
    ensures Xor(x, 0xC0C1) == Xor(Xor(Xor(Xor(Xor(x, 0x8000), 0x4000), 0x80), 0x40), 1)
  {
    hide Xor;
    Pow2Values();
    XorParts(x, 0x8000, 0x4000, 15, 1);
    XorParts(x, 0xC000, 0x80, 8, 0xC0);
    XorParts(x, 0xC080, 0x40, 7, 0x181);
    XorParts(x, 0xC0C0, 1, 1, 0x6060);
  }

  // Flipping a bit does not see changes by multiples of twice its weight.
  lemma BumpKept4000(x: int, d: int)
    requires d % 0x8000 == 0
    ensures Bump(x + d, 0x4000) == Bump(x, 0x4000)
  {}

  lemma BumpKept80(x: int, d: int)
    requires d % 0x100 == 0
    ensures Bump(x + d, 0x80) == Bump(x, 0x80)
  {}

  lemma BumpKept40(x: int, d: int)
    requires d % 0x80 == 0
    ensures Bump(x + d, 0x40) == Bump(x, 0x40)
  {}

  lemma BumpKept1(x: int, d: int)
    requires d % 2 == 0
    ensures Bump(x + d, 1) == Bump(x, 1)
  {}

  // Entry i is what eight shifts make of i.
  lemma {:induction false} TableEntry(t: seq<int>, i: byte, n: nat)
    requires Recurs(Shifted, FlipFirst, t) && n == 8
    ensures t[i] == Steps(i, n)
    decreases i
  {
    hide Xor, Shifted, FlipFirst;
    if i == 0 {
      StepsOfMultiple(0, n);
    } else {
      var y := i / 2;
      assert RecursAt(Shifted, FlipFirst, t, y);
      if i % 2 == 0 {
        TableEntry(t, y, n);
        EvenEntry(t[2 * y], y, n);
      } else {
        TableEntry(t, i - 1, n);
        OddEntry(t[2 * y], y, n);
      }
    }
  }

  lemma EvenEntry(e: nat, y: nat, n: nat)
    requires n > 0 && y < 0x8000 && e < 0x1_0000 && Shifted(e) == Steps(y, n)
    ensures e == Steps(2 * y, n)
  {
    hide Xor;
    StepsDoubled(y, n);
    FlipPolyIsXor(e / 2);
    StepsBound(2 * y, n);
    ShiftInjective(e, Steps(2 * y, n));
  }

  lemma OddEntry(e: nat, y: nat, n: nat)
    requires n == 8 && e == Steps(2 * y, n)
    ensures FlipFirst(e) == Steps(2 * y + 1, n)
  {
    hide Xor;
    FlipFirstIsXor(e);
    XorDisjoint(y, 1, 1);
    StepsXor(2 * y, 1, n);
    FlipPolyIsXor(0);
    FirstEntry(1);
  }

  // Entry 1, from the register after its first shift on.
  lemma FirstEntry(c: nat)
    requires Shift(c) == 0xA001
    ensures Steps(c, 8) == 0xC0C1
  {
    hide Xor, Shift;
    assert Steps(c, 0) == c;
    FirstSteps(c, 1, 0x5000, 0xF001);
    FirstSteps(c, 2, 0x7800, 0xD801);
    FirstSteps(c, 3, 0x6C00, 0xCC01);
    FirstSteps(c, 4, 0x6600, 0xC601);
    FirstSteps(c, 5, 0x6300, 0xC301);
    FirstSteps(c, 6, 0x6180, 0xC181);
    FirstSteps(c, 7, 0x60C0, 0xC0C1);
  }

  lemma FirstSteps(c: nat, n: nat, h: nat, next: nat)
    requires Steps(c, n) == 2 * h + 1 && next == FlipPoly(h)
    ensures Steps(c, n + 1) == next
  {
    hide Xor;
    FlipPolyIsXor(h);
  }

  // One table lookup does the work of eight shifts.
  lemma TableStep(t: seq<int>, c: nat, b: byte, n: nat)
    requires Recurs(Shifted, FlipFirst, t) && n == 8
    ensures t[Xor(c, b) % 0x100] >= 0
    ensures Xor(c / 0x100, t[Xor(c, b) % 0x100]) == Steps(Xor(c, b), n)
  {
    hide Xor;
    var x := Xor(c % 0x100, b);
    XorOverLow(c / 0x100, c % 0x100, b);
    assert Xor(c, b) % 0x100 == x;
    TableEntry(t, x, n);
    StepsXor(0x100 * (c / 0x100), x, n);
    StepsOfShifted(c / 0x100, n);
  }

  lemma StepsOfShifted(h: nat, n: nat)
    requires n == 8
    ensures Steps(0x100 * h, n) == h
  {
    Pow2Values();
    StepsOfMultiple(h, n);
  }

  lemma XorOverLow(h: nat, l: byte, b: byte)
    ensures Xor(0x100 * h + l, b) == Xor(0x100 * h, Xor(l, b)) == 0x100 * h + Xor(l, b)
    ensures Xor(l, b) < 0x100
  {
    hide Xor;
    Pow2Values();
    XorBound(l, b, 8);
    XorDisjoint(h, l, 8);
    XorAssoc(0x100 * h, l, b);
    XorDisjoint(h, Xor(l, b), 8);
  }

  // A multiple of 2^n is only moved down by n shifts.
  lemma {:induction false} StepsOfMultiple(h: nat, n: nat)
    ensures Steps(Pow2(n) * h, n) == h
    decreases n
  {
    hide Xor;
    if n > 0 {
      Double(Pow2(n - 1), h);
      StepsOfMultiple(2 * h, n - 1);
      assert Pow2(n) * h == Pow2(n - 1) * (2 * h);
    }
  }

  lemma {:induction false} StepsDoubled(y: nat, n: nat)
    requires n > 0
    ensures Steps(y, n) == Shift(Steps(2 * y, n))
  {
    hide Xor;
    if n > 1 {
      StepsDoubled(y, n - 1);
    } else {
      assert Steps(2 * y, 0) == 2 * y && Steps(y, 0) == y;
    }
  }

  // ---- What the checksum detects ------------------------------------------------------------------

  lemma XorTop(x: nat)
    requires x < 0x8000
    ensures Xor(x, POLY) >= 0x8000
  {
    hide Xor;
    Pow2Values();
    XorDisjoint(1, 0x2001, 15);
    XorAssoc(0x8000, 0x2001, x);
    XorComm(x, POLY);
    XorBound(0x2001, x, 15);
    XorDisjoint(1, Xor(0x2001, x), 15);
  }

  lemma {:induction false} StepsInjective(a: nat, b: nat, n: nat)
    requires a < 0x1_0000 && b < 0x1_0000
    requires Steps(a, n) == Steps(b, n)
    ensures a == b
  {
    hide Xor;
    if n > 0 {
      var p, q := Steps(a, n - 1), Steps(b, n - 1);
      StepsBound(a, n - 1);
      StepsBound(b, n - 1);
      ShiftInjective(p, q);
      StepsInjective(a, b, n - 1);
    }
  }

  lemma ShiftInjective(p: nat, q: nat)
    requires p < 0x1_0000 && q < 0x1_0000
    requires Shift(p) == Shift(q)
    ensures p == q
  {
    hide Xor;
    ShiftXor(p, q);
    XorSelf(Shift(p));
    var d := Xor(p, q);
    XorBound16(p, q);
    if d % 2 == 1 {
      XorTop(d / 2);
    }
    XorZeroOnly(p, q);
  }

  lemma XorInjective(a: nat, b: nat, c: nat)
    requires Xor(a, c) == Xor(b, c)
    ensures a == b
  {
    hide Xor;
    XorCancel(a, b, c);
    XorSelf(Xor(a, c));
    XorZeroOnly(a, b);
  }

  lemma {:induction false} RunInjective(c: nat, d: nat, s: seq<byte>)
    requires c < 0x1_0000 && d < 0x1_0000
    requires Run(c, s) == Run(d, s)
    ensures c == d
  {
    hide Xor;
    if s != [] {
      var t, b := s[..|s| - 1], s[|s| - 1];
      RunBound(c, t);
      RunBound(d, t);
      XorBound16(Run(c, t), b);
      XorBound16(Run(d, t), b);
      StepsInjective(Xor(Run(c, t), b), Xor(Run(d, t), b), 8);
      XorInjective(Run(c, t), Run(d, t), b);
      RunInjective(c, d, t);
    }
  }

  lemma {:induction false} StepsAdd(c: nat, m: nat, n: nat)
    ensures Steps(Steps(c, m), n) == Steps(c, m + n)
  {
    hide Xor;
    if n > 0 {
      StepsAdd(c, m, n - 1);
    }
  }

  // The checksum is linear in the message: feeding bytes is shifting the register into which
  // all of them were added at once.
  lemma {:induction false} RunIsSteps(c: nat, s: seq<byte>)
    ensures Run(c, s) == Steps(Xor(c, FromLe(s)), 8 * |s|)
    decreases |s|
  {
    hide Xor;
    if s == [] {
      XorZero(c);
    } else {
      var b, rest := s[0], s[1..];
      var f := FromLe(rest);
      assert s == [b] + rest;
      RunAppend(c, [b], rest);
      RunOne(c, b);
      RunIsSteps(Feed(c, b), rest);
      StepsOfShifted(f, 8);
      StepsXor(Xor(c, b), 0x100 * f, 8);
      StepsAdd(Xor(Xor(c, b), 0x100 * f), 8, 8 * |rest|);
      XorAssoc(c, b, 0x100 * f);
      XorComm(b, 0x100 * f);
      Pow2Values();
      XorDisjoint(f, b, 8);
    }
  }

  lemma RunOne(c: nat, b: byte)
    ensures Run(c, [b]) == Feed(c, b)
  {
    hide Feed;
    assert Run(c, [b][..0]) == c;
  }

  lemma StepsOfZero(n: nat)
    ensures Steps(0, n) == 0
  {
    hide Xor;
    StepsOfMultiple(0, n);
  }

  // The error is a burst: it changes bits within a stretch of at most sixteen, the first of
  // them bit j, counted from the low bit of the first byte as they are sent.
  ghost predicate Burst(s: seq<byte>, t: seq<byte>, j: nat, d: nat) {
    |s| == |t| && Xor(FromLe(s), FromLe(t)) == Pow2(j) * d && 0 < d < 0x1_0000
  }

  // Every burst changes the checksum, wherever it is.
  lemma BurstOf16Detected(s: seq<byte>, t: seq<byte>, j: nat, d: nat)
    requires Burst(s, t, j, d)
    ensures Checksum(s) != Checksum(t)
  {
    hide Xor, Pow2;
    var c, n := 0xFFFF, 8 * |s|;
    RunIsSteps(c, s);
    RunIsSteps(c, t);
    StepsXor(Xor(c, FromLe(s)), Xor(c, FromLe(t)), n);
    XorComm(c, FromLe(s));
    XorComm(c, FromLe(t));
    XorCancel(FromLe(s), FromLe(t), c);
    XorSelf(Checksum(s));
    BurstStays(j, d, n);
  }

  lemma BurstStays(j: nat, d: nat, n: nat)
    requires 0 < d < 0x1_0000
    ensures Steps(Pow2(j) * d, n) != 0
  {
    hide Xor;
    if j <= n {
      StepsAdd(Pow2(j) * d, j, n - j);
      StepsOfMultiple(d, j);
      StepsOfZero(n - j);
      if Steps(d, n - j) == 0 {
        StepsInjective(d, 0, n - j);
      }
    } else {
      Pow2Add(n, j - n);
      assert Pow2(j) * d == Pow2(n) * (Pow2(j - n) * d);
      StepsOfMultiple(Pow2(j - n) * d, n);
    }
  }

  lemma {:induction false} Pow2Add(m: nat, n: nat)
    ensures Pow2(m + n) == Pow2(m) * Pow2(n)
  {
    if n > 0 {
      Pow2Add(m, n - 1);
    }
  }

  // A message and its checksum, low byte first, have checksum zero together, and only it.
  lemma ChecksumChecksItself(body: seq<byte>, stored: seq<byte>)
    requires |stored| == 2
    ensures Checksum(body + stored) == 0 <==> FromLe(stored) == Checksum(body)
  {
    hide Xor;
    var crc, v := Checksum(body), FromLe(stored);
    RunAppend(0xFFFF, body, stored);
    RunIsSteps(crc, stored);
    LeBytesOfFromLe(stored);
    Pow256Values();
    XorBound16(crc, v);
    StepsOfZero(16);
    if crc == v {
      XorSelf(crc);
    }
    if Steps(Xor(crc, v), 16) == 0 {
      StepsInjective(Xor(crc, v), 0, 16);
      XorZeroOnly(crc, v);
    }
  }

  // Two different pairs of bytes never lead one register to the same register.
  lemma TwoBytesInjective(c: nat, a0: byte, a1: byte, b0: byte, b1: byte)
    requires c < 0x1_0000
    requires Feed(Feed(c, a0), a1) == Feed(Feed(c, b0), b1)
    ensures a0 == b0 && a1 == b1
  {
    hide Xor, Feed;
    var x, y := [a0, a1], [b0, b1];
    RunTwo(c, x);
    RunTwo(c, y);
    RunIsSteps(c, x);
    RunIsSteps(c, y);
    TwoBytes(a0, a1);
    TwoBytes(b0, b1);
    XorBound16(c, FromLe(x));
    XorBound16(c, FromLe(y));
    StepsInjective(Xor(c, FromLe(x)), Xor(c, FromLe(y)), 16);
    XorComm(c, FromLe(x));
    XorComm(c, FromLe(y));
    XorInjective(FromLe(x), FromLe(y), c);
  }

  lemma TwoBytes(a: byte, b: byte)
    ensures FromLe([a, b]) == a + 0x100 * b
  {
    assert [a, b][1..] == [b] && [b][1..] == [];
    assert FromLe([b]) == b;
  }

  // An error confined to two adjacent bytes always changes the checksum.
  lemma BurstDetected(p: seq<byte>, x: seq<byte>, y: seq<byte>, q: seq<byte>)
    requires |x| == |y| == 2 && x != y
    ensures Checksum(p + x + q) != Checksum(p + y + q)
  {
    hide Xor;
    assert x == [x[0], x[1]] && y == [y[0], y[1]];
    if Checksum(p + x + q) == Checksum(p + y + q) {
      var c := Run(0xFFFF, p);
      RunAppend(0xFFFF, p + x, q);
      RunAppend(0xFFFF, p + y, q);
      RunAppend(0xFFFF, p, x);
      RunAppend(0xFFFF, p, y);
      RunBound(0xFFFF, p);
      RunBound(c, x);
      RunBound(c, y);
      RunInjective(Run(c, x), Run(c, y), q);
      RunTwo(c, x);
      RunTwo(c, y);
      TwoBytesInjective(c, x[0], x[1], y[0], y[1]);
    }
  }

  lemma RunTwo(c: nat, x: seq<byte>)
    requires |x| == 2
    ensures Run(c, x) == Feed(Feed(c, x[0]), x[1])
  {
    hide Xor;
    assert Run(c, x[..1][..0]) == c;
    assert Run(c, x[..1]) == Feed(c, x[0]);
  }

  // ---- The check value -------------------------------------------------------------------------------

  // Exclusive or of two digits in base four.
  function XorDigit(a: nat, b: nat): nat {
    if a == b then 0 else if a + b == 3 then 3 else if (a < 2) == (b < 2) then 1 else 2
  }

  lemma XorOfDigits(a: nat, b: nat)
    requires a < 4 && b < 4
    ensures Xor(a, b) == XorDigit(a, b)
  {
    XorHalf(a, b);
    XorOne(a / 2);
    XorZero(a / 2);
    XorZero(b / 2);
  }

  lemma XorMoreDigits(a: nat, b: nat, x: nat, y: nat)
    requires x < 4 && y < 4
    ensures Xor(4 * a + x, 4 * b + y) == 4 * Xor(a, b) + XorDigit(x, y)
  {
    hide Xor;
    XorOfDigits(x, y);
    XorHalf(4 * a + x, 4 * b + y);
    XorHalf(2 * a + x / 2, 2 * b + y / 2);
    XorHalf(x, y);
    XorHalf(x / 2, y / 2);
    XorZero(0);
  }

  lemma XorTwoDigits(a: nat, b: nat, p: nat, q: nat, a1: nat, a0: nat, b1: nat, b0: nat)
    requires a1 < 4 && a0 < 4 && b1 < 4 && b0 < 4
    requires p == 16 * a + 4 * a1 + a0 && q == 16 * b + 4 * b1 + b0
    ensures Xor(p, q) == 16 * Xor(a, b) + 4 * XorDigit(a1, b1) + XorDigit(a0, b0)
  {
    hide Xor, XorDigit;
    var x, y := 4 * a + a1, 4 * b + b1;
    XorMoreDigits(a, b, a1, b1);
    XorMoreDigits(x, y, a0, b0);
    assert p == 4 * x + a0 && q == 4 * y + b0;
  }

  // Exclusive or of two bytes, digit by digit.
  lemma XorByDigits(p: nat, q: nat, a3: nat, a2: nat, a1: nat, a0: nat, b3: nat, b2: nat, b1: nat, b0: nat)
    requires a3 < 4 && a2 < 4 && a1 < 4 && a0 < 4 && b3 < 4 && b2 < 4 && b1 < 4 && b0 < 4
    requires p == 64 * a3 + 16 * a2 + 4 * a1 + a0 && q == 64 * b3 + 16 * b2 + 4 * b1 + b0
    ensures Xor(p, q) == 64 * XorDigit(a3, b3) + 16 * XorDigit(a2, b2) + 4 * XorDigit(a1, b1) + XorDigit(a0, b0)
  {
    hide Xor, XorDigit;
    XorZero(0);
    XorTwoDigits(0, 0, 4 * a3 + a2, 4 * b3 + b2, a3, a2, b3, b2);
    XorTwoDigits(4 * a3 + a2, 4 * b3 + b2, p, q, a1, a0, b1, b0);
  }

  // One byte by way of the table.
  lemma NextByte(t: seq<int>, c: nat, b: byte, i: byte)
    requires |t| == 0x100 && Recurs(Shifted, FlipFirst, t) && c < 0x1_0000
    requires i == Xor(c % 0x100, b) && 0 <= t[i] < 0x1_0000
    ensures Feed(c, b) == 0x100 * (t[i] / 0x100) + Xor(t[i] % 0x100, c / 0x100)
  {
    hide Xor, Recurs;
    TableStep(t, c, b, 8);
    XorOverLow(c / 0x100, c % 0x100, b);
    XorComm(c / 0x100, t[i]);
    XorOverLow(t[i] / 0x100, t[i] % 0x100, c / 0x100);
  }

  lemma NextDigit(t: seq<int>, s: seq<byte>, k: nat, c: nat, i: byte, next: nat)
    requires |t| == 0x100 && Recurs(Shifted, FlipFirst, t)
    requires k < |s| && Run(0xFFFF, s[..k]) == c < 0x1_0000
    requires i == Xor(c % 0x100, s[k]) && 0 <= t[i] < 0x1_0000
    requires next == 0x100 * (t[i] / 0x100) + Xor(t[i] % 0x100, c / 0x100)
    ensures Run(0xFFFF, s[..k + 1]) == next
  {
    hide Feed, Xor, Recurs;
    NextByte(t, c, s[k], i);
    assert s[..k + 1][..k] == s[..k];
  }

  const DIGITS: seq<byte> := [0x31, 0x32, 0x33, 0x34, 0x35, 0x36, 0x37, 0x38, 0x39]

  // The table entries that the digits lead to.
  ghost predicate DigitEntries(t: seq<int>) {
    && |t| == 0x100
    && t[0xCE] == 0x9481
    && t[0x4C] == 0xF501
    && t[0xA6] == 0x7A80
    && t[0x41] == 0x30C0
    && t[0x8F] == 0xA441
    && t[0x47] == 0x3240
    && t[0xD3] == 0x9D41
    && t[0x4B] == 0x3740
    && t[0xE4] == 0x4B00
  }

  lemma DigitNumbers()
    ensures Xor(0xFF, 0x31) == 0xCE && Xor(0x81, 0xFF) == 0x7E
    ensures Xor(0x7E, 0x32) == 0x4C && Xor(0x01, 0x94) == 0x95
    ensures Xor(0x95, 0x33) == 0xA6 && Xor(0x80, 0xF5) == 0x75
    ensures Xor(0x75, 0x34) == 0x41 && Xor(0xC0, 0x7A) == 0xBA
    ensures Xor(0xBA, 0x35) == 0x8F && Xor(0x41, 0x30) == 0x71
    ensures Xor(0x71, 0x36) == 0x47 && Xor(0x40, 0xA4) == 0xE4
    ensures Xor(0xE4, 0x37) == 0xD3 && Xor(0x41, 0x32) == 0x73
    ensures Xor(0x73, 0x38) == 0x4B && Xor(0x40, 0x9D) == 0xDD
    ensures Xor(0xDD, 0x39) == 0xE4 && Xor(0x00, 0x37) == 0x37
  {
    hide Xor;
    XorByDigits(0xFF, 0x31, 3, 3, 3, 3, 0, 3, 0, 1);
    XorByDigits(0x81, 0xFF, 2, 0, 0, 1, 3, 3, 3, 3);
    XorByDigits(0x7E, 0x32, 1, 3, 3, 2, 0, 3, 0, 2);
    XorByDigits(0x01, 0x94, 0, 0, 0, 1, 2, 1, 1, 0);
    XorByDigits(0x95, 0x33, 2, 1, 1, 1, 0, 3, 0, 3);
    XorByDigits(0x80, 0xF5, 2, 0, 0, 0, 3, 3, 1, 1);
    XorByDigits(0x75, 0x34, 1, 3, 1, 1, 0, 3, 1, 0);
    XorByDigits(0xC0, 0x7A, 3, 0, 0, 0, 1, 3, 2, 2);
    XorByDigits(0xBA, 0x35, 2, 3, 2, 2, 0, 3, 1, 1);
    XorByDigits(0x41, 0x30, 1, 0, 0, 1, 0, 3, 0, 0);
    XorByDigits(0x71, 0x36, 1, 3, 0, 1, 0, 3, 1, 2);
    XorByDigits(0x40, 0xA4, 1, 0, 0, 0, 2, 2, 1, 0);
    XorByDigits(0xE4, 0x37, 3, 2, 1, 0, 0, 3, 1, 3);
    XorByDigits(0x41, 0x32, 1, 0, 0, 1, 0, 3, 0, 2);
    XorByDigits(0x73, 0x38, 1, 3, 0, 3, 0, 3, 2, 0);
    XorByDigits(0x40, 0x9D, 1, 0, 0, 0, 2, 1, 3, 1);
    XorByDigits(0xDD, 0x39, 3, 1, 3, 1, 0, 3, 2, 1);
    XorByDigits(0x00, 0x37, 0, 0, 0, 0, 0, 3, 1, 3);
  }

  lemma DigitsByTable(t: seq<int>, s: seq<byte>)
    requires Recurs(Shifted, FlipFirst, t) && DigitEntries(t) && s == DIGITS
    ensures Run(0xFFFF, s[..9]) == 0x4B37
  {
    hide Feed, Xor, Recurs, Run;
    StartValue(s);
    DigitNumbers();
    NextDigit(t, s, 0, 0xFFFF, 0xCE, 0x947E);
    NextDigit(t, s, 1, 0x947E, 0x4C, 0xF595);
    NextDigit(t, s, 2, 0xF595, 0xA6, 0x7A75);
    NextDigit(t, s, 3, 0x7A75, 0x41, 0x30BA);
    NextDigit(t, s, 4, 0x30BA, 0x8F, 0xA471);
    NextDigit(t, s, 5, 0xA471, 0x47, 0x32E4);
    NextDigit(t, s, 6, 0x32E4, 0xD3, 0x9D73);
    NextDigit(t, s, 7, 0x9D73, 0x4B, 0x37DD);
    NextDigit(t, s, 8, 0x37DD, 0xE4, 0x4B37);
  }

  lemma StartValue(s: seq<byte>)
    ensures Run(0xFFFF, s[..0]) == 0xFFFF
  {
    hide Feed;
  }

  lemma TableHasDigits()
    ensures DigitEntries(CRC_TAB)
  {
    hide Flatten;
    RowsInOrder();
    FlattenRows(ROWS, 0xCE);
    FlattenRows(ROWS, 0x4C);
    FlattenRows(ROWS, 0xA6);
    FlattenRows(ROWS, 0x41);
    FlattenRows(ROWS, 0x8F);
    FlattenRows(ROWS, 0x47);
    FlattenRows(ROWS, 0xD3);
    FlattenRows(ROWS, 0x4B);
    FlattenRows(ROWS, 0xE4);
  }

  // The published check value, over the digits "123456789". It depends on the start value,
  // the polynomial, and the order of the bits.
  lemma CheckValue()
    ensures forall i | 0 <= i < 9 :: DIGITS[i] == "123456789"[i] as int
    ensures Checksum(DIGITS) == 0x4B37
  {
    hide Recurs;
    TableRecurs();
    TableHasDigits();
    DigitsByTable(CRC_TAB, DIGITS);
    assert DIGITS[..9] == DIGITS;
  }
}
