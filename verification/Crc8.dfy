/** The proxy client's CRC-8: a table of 256 entries, polynomial 0x07, initial value 0xF3. */
module Crc8 {

  type byte = bv8

  const INITIAL: byte := 0xF3

  /** The table, sixteen entries to a row. */
  const ROW_0: seq<byte> :=
    [0x00, 0x07, 0x0E, 0x09, 0x1C, 0x1B, 0x12, 0x15, 0x38, 0x3F, 0x36, 0x31, 0x24, 0x23, 0x2A, 0x2D]
  const ROW_1: seq<byte> :=
    [0x70, 0x77, 0x7E, 0x79, 0x6C, 0x6B, 0x62, 0x65, 0x48, 0x4F, 0x46, 0x41, 0x54, 0x53, 0x5A, 0x5D]
  const ROW_2: seq<byte> :=
    [0xE0, 0xE7, 0xEE, 0xE9, 0xFC, 0xFB, 0xF2, 0xF5, 0xD8, 0xDF, 0xD6, 0xD1, 0xC4, 0xC3, 0xCA, 0xCD]
  const ROW_3: seq<byte> :=
    [0x90, 0x97, 0x9E, 0x99, 0x8C, 0x8B, 0x82, 0x85, 0xA8, 0xAF, 0xA6, 0xA1, 0xB4, 0xB3, 0xBA, 0xBD]
  const ROW_4: seq<byte> :=
    [0xC7, 0xC0, 0xC9, 0xCE, 0xDB, 0xDC, 0xD5, 0xD2, 0xFF, 0xF8, 0xF1, 0xF6, 0xE3, 0xE4, 0xED, 0xEA]
  const ROW_5: seq<byte> :=
    [0xB7, 0xB0, 0xB9, 0xBE, 0xAB, 0xAC, 0xA5, 0xA2, 0x8F, 0x88, 0x81, 0x86, 0x93, 0x94, 0x9D, 0x9A]
  const ROW_6: seq<byte> :=
    [0x27, 0x20, 0x29, 0x2E, 0x3B, 0x3C, 0x35, 0x32, 0x1F, 0x18, 0x11, 0x16, 0x03, 0x04, 0x0D, 0x0A]
  const ROW_7: seq<byte> :=
    [0x57, 0x50, 0x59, 0x5E, 0x4B, 0x4C, 0x45, 0x42, 0x6F, 0x68, 0x61, 0x66, 0x73, 0x74, 0x7D, 0x7A]
  const ROW_8: seq<byte> :=
    [0x89, 0x8E, 0x87, 0x80, 0x95, 0x92, 0x9B, 0x9C, 0xB1, 0xB6, 0xBF, 0xB8, 0xAD, 0xAA, 0xA3, 0xA4]
  const ROW_9: seq<byte> :=
    [0xF9, 0xFE, 0xF7, 0xF0, 0xE5, 0xE2, 0xEB, 0xEC, 0xC1, 0xC6, 0xCF, 0xC8, 0xDD, 0xDA, 0xD3, 0xD4]
  const ROW_A: seq<byte> :=
    [0x69, 0x6E, 0x67, 0x60, 0x75, 0x72, 0x7B, 0x7C, 0x51, 0x56, 0x5F, 0x58, 0x4D, 0x4A, 0x43, 0x44]
  const ROW_B: seq<byte> :=
    [0x19, 0x1E, 0x17, 0x10, 0x05, 0x02, 0x0B, 0x0C, 0x21, 0x26, 0x2F, 0x28, 0x3D, 0x3A, 0x33, 0x34]
  const ROW_C: seq<byte> :=
    [0x4E, 0x49, 0x40, 0x47, 0x52, 0x55, 0x5C, 0x5B, 0x76, 0x71, 0x78, 0x7F, 0x6A, 0x6D, 0x64, 0x63]
  const ROW_D: seq<byte> :=
    [0x3E, 0x39, 0x30, 0x37, 0x22, 0x25, 0x2C, 0x2B, 0x06, 0x01, 0x08, 0x0F, 0x1A, 0x1D, 0x14, 0x13]
  const ROW_E: seq<byte> :=
    [0xAE, 0xA9, 0xA0, 0xA7, 0xB2, 0xB5, 0xBC, 0xBB, 0x96, 0x91, 0x98, 0x9F, 0x8A, 0x8D, 0x84, 0x83]
  const ROW_F: seq<byte> :=
    [0xDE, 0xD9, 0xD0, 0xD7, 0xC2, 0xC5, 0xCC, 0xCB, 0xE6, 0xE1, 0xE8, 0xEF, 0xFA, 0xFD, 0xF4, 0xF3]

  function Row(r: nat): (row: seq<byte>)
    requires r < 16
    ensures |row| == 16
  {
    if r < 8 then
      if r == 0 then ROW_0 else if r == 1 then ROW_1 else if r == 2 then ROW_2 else if r == 3 then ROW_3
      else if r == 4 then ROW_4 else if r == 5 then ROW_5 else if r == 6 then ROW_6 else ROW_7
    else
      if r == 8 then ROW_8 else if r == 9 then ROW_9 else if r == 10 then ROW_A else if r == 11 then ROW_B
      else if r == 12 then ROW_C else if r == 13 then ROW_D else if r == 14 then ROW_E else ROW_F
  }

  function High(b: byte): byte { b >> 4 }

  function Low(b: byte): byte { b & 0x0F }

  /** The number of a nibble. */
  function Nibble(x: byte): (n: nat)
    requires x < 16
    ensures n < 16
  {
    x as nat
  }

  lemma NibblesSmall(b: byte)
    ensures High(b) < 16 && Low(b) < 16
  {}

  /** Entry `index` of the table. */
  function CrcTable(index: byte): byte {
    NibblesSmall(index);
    Row(Nibble(High(index)))[Nibble(Low(index))]
  }

  // ---------------------------------------------------------------- the table is the polynomial

  function Xor(a: byte, b: byte): byte { a ^ b }

  /** One bit of polynomial division. */
  function BitStep(crc: byte): byte {
    if crc & 0x80 != 0 then (crc << 1) ^ 0x07 else crc << 1
  }

  /** Eight bits of it: what one byte does to the register. */
  function Divide(b: byte): byte {
    BitStep(BitStep(BitStep(BitStep(BitStep(BitStep(BitStep(BitStep(b))))))))
  }

  predicate Below16(x: byte) {
    x == 0 || x == 1 || x == 2 || x == 3 || x == 4 || x == 5 || x == 6 || x == 7 || x == 8
    || x == 9 || x == 10 || x == 11 || x == 12 || x == 13 || x == 14 || x == 15
  }

  lemma SmallIsBelow(x: byte)
    requires x < 16
    ensures Below16(x)
  {}

  /** Every row is the first one, shifted by its own first entry. */
  predicate Shifted(row: seq<byte>, j: nat)
    requires |row| == 16 && j < 16
  {
    row[j] == Xor(row[0], ROW_0[j])
  }

  lemma UpperRows(j: nat)
    requires j < 16
    ensures Shifted(Row(0), j) && Shifted(Row(1), j) && Shifted(Row(2), j) && Shifted(Row(3), j)
    ensures Shifted(Row(4), j) && Shifted(Row(5), j) && Shifted(Row(6), j) && Shifted(Row(7), j)
  {
    assert j == 0 || j == 1 || j == 2 || j == 3 || j == 4 || j == 5 || j == 6 || j == 7 || j == 8
        || j == 9 || j == 10 || j == 11 || j == 12 || j == 13 || j == 14 || j == 15;
  }

  lemma LowerRows(j: nat)
    requires j < 16
    ensures Shifted(Row(8), j) && Shifted(Row(9), j) && Shifted(Row(10), j) && Shifted(Row(11), j)
    ensures Shifted(Row(12), j) && Shifted(Row(13), j) && Shifted(Row(14), j) && Shifted(Row(15), j)
  {
    assert j == 0 || j == 1 || j == 2 || j == 3 || j == 4 || j == 5 || j == 6 || j == 7 || j == 8
        || j == 9 || j == 10 || j == 11 || j == 12 || j == 13 || j == 14 || j == 15;
  }

  lemma RowIsShifted(r: nat, j: nat)
    requires r < 16 && j < 16
    ensures Row(r)[j] == Xor(Row(r)[0], ROW_0[j])
  {
    hide Row, Xor;
    UpperRows(j);
    LowerRows(j);
    assert r == 0 || r == 1 || r == 2 || r == 3 || r == 4 || r == 5 || r == 6 || r == 7 || r == 8
        || r == 9 || r == 10 || r == 11 || r == 12 || r == 13 || r == 14 || r == 15;
    assert Shifted(Row(r), j);
  }

  lemma DivideHigh0()
    ensures Divide(0x00) == 0x00 && Divide(0x10) == 0x70
    ensures Divide(0x20) == 0xE0 && Divide(0x30) == 0x90
  {}

  lemma DivideHigh4()
    ensures Divide(0x40) == 0xC7 && Divide(0x50) == 0xB7
    ensures Divide(0x60) == 0x27 && Divide(0x70) == 0x57
  {}

  lemma DivideHigh8()
    ensures Divide(0x80) == 0x89 && Divide(0x90) == 0xF9
    ensures Divide(0xA0) == 0x69 && Divide(0xB0) == 0x19
  {}

  lemma DivideHighC()
    ensures Divide(0xC0) == 0x4E && Divide(0xD0) == 0x3E
    ensures Divide(0xE0) == 0xAE && Divide(0xF0) == 0xDE
  {}

  lemma LeadIs(x: byte)
    requires x < 16
    ensures Row(Nibble(x))[0] == Divide(x << 4)
  {
    hide Divide;
    DivideHigh0();
    DivideHigh4();
    DivideHigh8();
    DivideHighC();
    SmallIsBelow(x);
  }

  lemma FirstRowIs(x: byte)
    requires x < 16
    ensures ROW_0[Nibble(x)] == Divide(x)
  {
    SmallIsBelow(x);
  }

  predicate Top(b: byte) { b & 0x80 != 0 }

  lemma TopTop(a: byte, b: byte)
    requires Top(a) && Top(b)
    ensures BitStep(Xor(a, b)) == Xor(BitStep(a), BitStep(b))
  {}

  lemma TopOnly(a: byte, b: byte)
    requires Top(a) && !Top(b)
    ensures BitStep(Xor(a, b)) == Xor(BitStep(a), BitStep(b))
    ensures BitStep(Xor(b, a)) == Xor(BitStep(b), BitStep(a))
  {}

  lemma NoTop(a: byte, b: byte)
    requires !Top(a) && !Top(b)
    ensures BitStep(Xor(a, b)) == Xor(BitStep(a), BitStep(b))
  {}

  lemma BitStepLinear(a: byte, b: byte)
    ensures BitStep(Xor(a, b)) == Xor(BitStep(a), BitStep(b))
  {
    hide *;
    if Top(a) {
      if Top(b) { TopTop(a, b); } else { TopOnly(a, b); }
    } else {
      if Top(b) { TopOnly(b, a); } else { NoTop(a, b); }
    }
  }

  lemma TwoStepsLinear(a: byte, b: byte)
    ensures BitStep(BitStep(Xor(a, b))) == Xor(BitStep(BitStep(a)), BitStep(BitStep(b)))
  {
    hide *;
    BitStepLinear(a, b);
    BitStepLinear(BitStep(a), BitStep(b));
  }

  lemma DivideLinear(a: byte, b: byte)
    ensures Divide(Xor(a, b)) == Xor(Divide(a), Divide(b))
  {
    hide BitStep, Xor;
    var a2, b2 := BitStep(BitStep(a)), BitStep(BitStep(b));
    var a4, b4 := BitStep(BitStep(a2)), BitStep(BitStep(b2));
    TwoStepsLinear(a, b);
    TwoStepsLinear(a2, b2);
    TwoStepsLinear(a4, b4);
    TwoStepsLinear(BitStep(BitStep(a4)), BitStep(BitStep(b4)));
  }

  lemma SplitByte(b: byte)
    ensures b == Xor(High(b) << 4, Low(b))
  {}

  /** All 256 entries of the table are the polynomial division of their index. */
  lemma TableIsDivision(b: byte)
    ensures CrcTable(b) == Divide(b)
  {
    NibblesSmall(b);
    hide Divide, Xor, Row, High, Low, Nibble;
    LeadIs(High(b));
    FirstRowIs(Low(b));
    RowIsShifted(Nibble(High(b)), Nibble(Low(b)));
    SplitByte(b);
    DivideLinear(High(b) << 4, Low(b));
  }

  // ---------------------------------------------------------------- messages

  /** The register after a message, by table. */
  function Crc8(data: seq<byte>): byte
    decreases |data|
  {
    if data == [] then INITIAL else CrcTable(Xor(data[|data| - 1], Crc8(data[..|data| - 1])))
  }

  /** A register started anywhere and divided bit by bit. */
  function BitwiseFrom(initial: byte, data: seq<byte>): byte
    decreases |data|
  {
    if data == [] then initial else Divide(Xor(BitwiseFrom(initial, data[..|data| - 1]), data[|data| - 1]))
  }

  method ComputeCrc8(data: seq<byte>) returns (crc: byte)
    ensures crc == Crc8(data)
  {
    crc := INITIAL;
    for i := 0 to |data|
      invariant crc == Crc8(data[..i])
    {
      crc := CrcTable(data[i] ^ crc);
      assert data[..i + 1][..i] == data[..i];
    }
    assert data[..|data|] == data;
  }

  lemma XorLaws(a: byte, b: byte)
    ensures Xor(a, b) == Xor(b, a)
    ensures Xor(a, b) == 0 <==> a == b
  {}

  lemma {:induction false} TableIsBitwise(data: seq<byte>)
    ensures Crc8(data) == BitwiseFrom(INITIAL, data)
    decreases |data|
  {
    if data != [] {
      hide CrcTable, Divide, Xor;
      TableIsBitwise(data[..|data| - 1]);
      TableIsDivision(Xor(data[|data| - 1], Crc8(data[..|data| - 1])));
      XorLaws(data[|data| - 1], Crc8(data[..|data| - 1]));
    }
  }

  lemma BitStepInjective(a: byte, b: byte)
    requires BitStep(a) == BitStep(b)
    ensures a == b
  {}

  lemma TwoStepsInjective(a: byte, b: byte)
    requires BitStep(BitStep(a)) == BitStep(BitStep(b))
    ensures a == b
  {
    hide BitStep;
    BitStepInjective(BitStep(a), BitStep(b));
    BitStepInjective(a, b);
  }

  lemma DivideInjective(a: byte, b: byte)
    requires Divide(a) == Divide(b)
    ensures a == b
  {
    hide BitStep;
    var a2, b2 := BitStep(BitStep(a)), BitStep(BitStep(b));
    var a4, b4 := BitStep(BitStep(a2)), BitStep(BitStep(b2));
    TwoStepsInjective(BitStep(BitStep(a4)), BitStep(BitStep(b4)));
    TwoStepsInjective(a4, b4);
    TwoStepsInjective(a2, b2);
    TwoStepsInjective(a, b);
  }

  lemma CrcSnoc(data: seq<byte>, b: byte)
    ensures Crc8(data + [b]) == CrcTable(Xor(b, Crc8(data)))
  {
    hide CrcTable, Xor;
    assert (data + [b])[..|data|] == data;
  }

  lemma DivideOfZero()
    ensures Divide(0) == 0
  {}

  /** A message checks out exactly if its last byte is the CRC of what stands before it. */
  lemma ZeroIffAppended(data: seq<byte>, last: byte)
    ensures Crc8(data + [last]) == 0 <==> last == Crc8(data)
  {
    hide CrcTable, Xor, Divide;
    CrcSnoc(data, last);
    var x := Xor(last, Crc8(data));
    TableIsDivision(x);
    XorLaws(last, Crc8(data));
    DivideOfZero();
    if Divide(x) == 0 {
      DivideInjective(x, 0);
    }
  }

  lemma XorInjective(c: byte, d: byte, m: byte)
    requires Xor(c, m) == Xor(d, m)
    ensures c == d
  {}

  lemma SameByteKeepsApart(c: byte, d: byte, m: byte)
    requires c != d
    ensures Divide(Xor(c, m)) != Divide(Xor(d, m))
  {
    hide Xor, Divide;
    if Divide(Xor(c, m)) == Divide(Xor(d, m)) {
      DivideInjective(Xor(c, m), Xor(d, m));
      XorInjective(c, d, m);
    }
  }

  lemma OtherByteParts(c: byte, m: byte, n: byte)
    requires m != n
    ensures Divide(Xor(c, m)) != Divide(Xor(c, n))
  {
    hide Xor, Divide;
    XorLaws(c, m);
    XorLaws(c, n);
    SameByteKeepsApart(m, n, c);
  }

  /** A message with one byte altered has another CRC, whatever its length and the initial value. */
  lemma {:induction false} SingleByteDetected(initial: byte, data: seq<byte>, damaged: seq<byte>, at: nat)
    requires |damaged| == |data| && at < |data| && damaged[at] != data[at]
    requires forall i :: 0 <= i < |data| && i != at ==> damaged[i] == data[i]
    ensures BitwiseFrom(initial, damaged) != BitwiseFrom(initial, data)
    decreases |data|
  {
    hide Divide, Xor;
    var n := |data| - 1;
    if at == n {
      assert damaged[..n] == data[..n];
      OtherByteParts(BitwiseFrom(initial, data[..n]), data[n], damaged[n]);
    } else {
      SingleByteDetected(initial, data[..n], damaged[..n], at);
      SameByteKeepsApart(BitwiseFrom(initial, data[..n]), BitwiseFrom(initial, damaged[..n]), data[n]);
    }
  }
}
