/** The table-driven CRC: polynomial 0x8005, bits reflected. */
module CrcTable {

  /** One bit of the reflected CRC: 0xA001 is 0x8005 with its bits in reverse order. */
  function Reflected(x: bv16): bv16 {
    if x & 1 == 1 then (x >> 1) ^ 0xA001 else x >> 1
  }

  /** Eight bits of it. */
  function Reflected8(x: bv16): bv16 {
    Reflected(Reflected(Reflected(Reflected(Reflected(Reflected(Reflected(Reflected(x))))))))
  }

  /** The CRC of a buffer, bit by bit: every byte is added at the low end and eight bits are divided off. */
  function BitByBit(crc: bv16, buf: seq<bv8>): bv16
    decreases |buf|
  {
    if buf == [] then crc else BitByBit(Reflected8(crc ^ (buf[0] as bv16)), buf[1..])
  }

  // `crc16_table`, sixteen entries to a row
  const ROW0: seq<bv16> := [0x0000, 0xC0C1, 0xC181, 0x0140, 0xC301, 0x03C0, 0x0280, 0xC241,
                            0xC601, 0x06C0, 0x0780, 0xC741, 0x0500, 0xC5C1, 0xC481, 0x0440]
  const ROW1: seq<bv16> := [0xCC01, 0x0CC0, 0x0D80, 0xCD41, 0x0F00, 0xCFC1, 0xCE81, 0x0E40,
                            0x0A00, 0xCAC1, 0xCB81, 0x0B40, 0xC901, 0x09C0, 0x0880, 0xC841]
  const ROW2: seq<bv16> := [0xD801, 0x18C0, 0x1980, 0xD941, 0x1B00, 0xDBC1, 0xDA81, 0x1A40,
                            0x1E00, 0xDEC1, 0xDF81, 0x1F40, 0xDD01, 0x1DC0, 0x1C80, 0xDC41]
  const ROW3: seq<bv16> := [0x1400, 0xD4C1, 0xD581, 0x1540, 0xD701, 0x17C0, 0x1680, 0xD641,
                            0xD201, 0x12C0, 0x1380, 0xD341, 0x1100, 0xD1C1, 0xD081, 0x1040]
  const ROW4: seq<bv16> := [0xF001, 0x30C0, 0x3180, 0xF141, 0x3300, 0xF3C1, 0xF281, 0x3240,
                            0x3600, 0xF6C1, 0xF781, 0x3740, 0xF501, 0x35C0, 0x3480, 0xF441]
  const ROW5: seq<bv16> := [0x3C00, 0xFCC1, 0xFD81, 0x3D40, 0xFF01, 0x3FC0, 0x3E80, 0xFE41,
                            0xFA01, 0x3AC0, 0x3B80, 0xFB41, 0x3900, 0xF9C1, 0xF881, 0x3840]
  const ROW6: seq<bv16> := [0x2800, 0xE8C1, 0xE981, 0x2940, 0xEB01, 0x2BC0, 0x2A80, 0xEA41,
                            0xEE01, 0x2EC0, 0x2F80, 0xEF41, 0x2D00, 0xEDC1, 0xEC81, 0x2C40]
  const ROW7: seq<bv16> := [0xE401, 0x24C0, 0x2580, 0xE541, 0x2700, 0xE7C1, 0xE681, 0x2640,
                            0x2200, 0xE2C1, 0xE381, 0x2340, 0xE101, 0x21C0, 0x2080, 0xE041]
  const ROW8: seq<bv16> := [0xA001, 0x60C0, 0x6180, 0xA141, 0x6300, 0xA3C1, 0xA281, 0x6240,
                            0x6600, 0xA6C1, 0xA781, 0x6740, 0xA501, 0x65C0, 0x6480, 0xA441]
  const ROW9: seq<bv16> := [0x6C00, 0xACC1, 0xAD81, 0x6D40, 0xAF01, 0x6FC0, 0x6E80, 0xAE41,
                            0xAA01, 0x6AC0, 0x6B80, 0xAB41, 0x6900, 0xA9C1, 0xA881, 0x6840]
  const ROWA: seq<bv16> := [0x7800, 0xB8C1, 0xB981, 0x7940, 0xBB01, 0x7BC0, 0x7A80, 0xBA41,
                            0xBE01, 0x7EC0, 0x7F80, 0xBF41, 0x7D00, 0xBDC1, 0xBC81, 0x7C40]
  const ROWB: seq<bv16> := [0xB401, 0x74C0, 0x7580, 0xB541, 0x7700, 0xB7C1, 0xB681, 0x7640,
                            0x7200, 0xB2C1, 0xB381, 0x7340, 0xB101, 0x71C0, 0x7080, 0xB041]
  const ROWC: seq<bv16> := [0x5000, 0x90C1, 0x9181, 0x5140, 0x9301, 0x53C0, 0x5280, 0x9241,
                            0x9601, 0x56C0, 0x5780, 0x9741, 0x5500, 0x95C1, 0x9481, 0x5440]
  const ROWD: seq<bv16> := [0x9C01, 0x5CC0, 0x5D80, 0x9D41, 0x5F00, 0x9FC1, 0x9E81, 0x5E40,
                            0x5A00, 0x9AC1, 0x9B81, 0x5B40, 0x9901, 0x59C0, 0x5880, 0x9841]
  const ROWE: seq<bv16> := [0x8801, 0x48C0, 0x4980, 0x8941, 0x4B00, 0x8BC1, 0x8A81, 0x4A40,
                            0x4E00, 0x8EC1, 0x8F81, 0x4F40, 0x8D01, 0x4DC0, 0x4C80, 0x8C41]
  const ROWF: seq<bv16> := [0x4400, 0x84C1, 0x8581, 0x4540, 0x8701, 0x47C0, 0x4680, 0x8641,
                            0x8201, 0x42C0, 0x4380, 0x8341, 0x4100, 0x81C1, 0x8081, 0x4040]

  const ROWS: seq<seq<bv16>> := [ROW0, ROW1, ROW2, ROW3, ROW4, ROW5, ROW6, ROW7, ROW8, ROW9, ROWA, ROWB, ROWC, ROWD, ROWE, ROWF]

  lemma Row0Entry(x: bv16)
    requires x >> 4 == 0
    ensures ROW0[(x & 15) as int] == Reflected8(x)
  {
  }

  lemma Row1Entry(x: bv16)
    requires x >> 4 == 1
    ensures ROW1[(x & 15) as int] == Reflected8(x)
  {
  }

  lemma Row2Entry(x: bv16)
    requires x >> 4 == 2
    ensures ROW2[(x & 15) as int] == Reflected8(x)
  {
  }

  lemma Row3Entry(x: bv16)
    requires x >> 4 == 3
    ensures ROW3[(x & 15) as int] == Reflected8(x)
  {
  }

  lemma Row4Entry(x: bv16)
    requires x >> 4 == 4
    ensures ROW4[(x & 15) as int] == Reflected8(x)
  {
  }

  lemma Row5Entry(x: bv16)
    requires x >> 4 == 5
    ensures ROW5[(x & 15) as int] == Reflected8(x)
  {
  }

  lemma Row6Entry(x: bv16)
    requires x >> 4 == 6
    ensures ROW6[(x & 15) as int] == Reflected8(x)
  {
  }

  lemma Row7Entry(x: bv16)
    requires x >> 4 == 7
    ensures ROW7[(x & 15) as int] == Reflected8(x)
  {
  }

  lemma Row8Entry(x: bv16)
    requires x >> 4 == 8
    ensures ROW8[(x & 15) as int] == Reflected8(x)
  {
  }

  lemma Row9Entry(x: bv16)
    requires x >> 4 == 9
    ensures ROW9[(x & 15) as int] == Reflected8(x)
  {
  }

  lemma RowAEntry(x: bv16)
    requires x >> 4 == 10
    ensures ROWA[(x & 15) as int] == Reflected8(x)
  {
  }

  lemma RowBEntry(x: bv16)
    requires x >> 4 == 11
    ensures ROWB[(x & 15) as int] == Reflected8(x)
  {
  }

  lemma RowCEntry(x: bv16)
    requires x >> 4 == 12
    ensures ROWC[(x & 15) as int] == Reflected8(x)
  {
  }

  lemma RowDEntry(x: bv16)
    requires x >> 4 == 13
    ensures ROWD[(x & 15) as int] == Reflected8(x)
  {
  }

  lemma RowEEntry(x: bv16)
    requires x >> 4 == 14
    ensures ROWE[(x & 15) as int] == Reflected8(x)
  {
  }

  lemma RowFEntry(x: bv16)
    requires x >> 4 == 15
    ensures ROWF[(x & 15) as int] == Reflected8(x)
  {
  }

  /** `crc16_table[x]` */
  function Lookup(x: bv16): bv16
    requires x < 256
  {
    ROWS[(x >> 4) as int][(x & 15) as int]
  }

  /** Every entry of the table is eight steps of the bitwise CRC. */
  lemma TableIsBitwise(x: bv16)
    requires x < 256
    ensures Lookup(x) == Reflected8(x)
  {
    hide Reflected8;
    if x >> 4 == 0 {
      Row0Entry(x);
    } else if x >> 4 == 1 {
      Row1Entry(x);
    } else if x >> 4 == 2 {
      Row2Entry(x);
    } else if x >> 4 == 3 {
      Row3Entry(x);
    } else if x >> 4 == 4 {
      Row4Entry(x);
    } else if x >> 4 == 5 {
      Row5Entry(x);
    } else if x >> 4 == 6 {
      Row6Entry(x);
    } else if x >> 4 == 7 {
      Row7Entry(x);
    } else if x >> 4 == 8 {
      Row8Entry(x);
    } else if x >> 4 == 9 {
      Row9Entry(x);
    } else if x >> 4 == 10 {
      RowAEntry(x);
    } else if x >> 4 == 11 {
      RowBEntry(x);
    } else if x >> 4 == 12 {
      RowCEntry(x);
    } else if x >> 4 == 13 {
      RowDEntry(x);
    } else if x >> 4 == 14 {
      RowEEntry(x);
    } else if x >> 4 == 15 {
      RowFEntry(x);
    }
  }

  function Xor(a: bv16, b: bv16): bv16 {
    a ^ b
  }

  function Half(x: bv16): bv16 {
    x >> 1
  }

  predicate Odd(x: bv16) {
    x & 1 == 1
  }

  lemma XorAssociative(a: bv16, b: bv16, c: bv16)
    ensures Xor(Xor(a, b), c) == Xor(a, Xor(b, c))
  {
  }

  lemma XorHalves(a: bv16, b: bv16)
    ensures Half(Xor(a, b)) == Xor(Half(a), Half(b))
  {
  }

  lemma XorEven(a: bv16, b: bv16)
    requires !Odd(a)
    ensures Odd(Xor(a, b)) == Odd(b)
  {
  }

  lemma ReflectedCases(x: bv16)
    ensures Reflected(x) == if Odd(x) then Xor(Half(x), 0xA001) else Half(x)
  {
  }

  /** A bit above those being divided off only moves down. */
  lemma StepAbove(z: bv16, y: bv16)
    requires !Odd(z)
    ensures Reflected(Xor(z, y)) == Xor(Half(z), Reflected(y))
  {
    hide Xor, Half, Odd, Reflected;
    XorEven(z, y);
    XorHalves(z, y);
    XorAssociative(Half(z), Half(y), 0xA001);
    ReflectedCases(y);
    ReflectedCases(Xor(z, y));
  }

  function Halves(z: bv16): bv16 {
    Half(Half(Half(Half(Half(Half(Half(Half(z))))))))
  }

  lemma UpperHalf(x: bv16)
    ensures var z := x & 0xFF00;
            && x == Xor(z, x & 0xFF) && Halves(z) == x >> 8
            && !Odd(z) && !Odd(Half(z)) && !Odd(Half(Half(z))) && !Odd(Half(Half(Half(z)))) && !Odd(Half(Half(Half(Half(z)))))
            && !Odd(Half(Half(Half(Half(Half(z)))))) && !Odd(Half(Half(Half(Half(Half(Half(z)))))))
            && !Odd(Half(Half(Half(Half(Half(Half(Half(z))))))))
  {
  }

  lemma EightAbove(z: bv16, y: bv16)
    requires !Odd(z) && !Odd(Half(z)) && !Odd(Half(Half(z))) && !Odd(Half(Half(Half(z)))) && !Odd(Half(Half(Half(Half(z)))))
    requires !Odd(Half(Half(Half(Half(Half(z)))))) && !Odd(Half(Half(Half(Half(Half(Half(z)))))))
    requires !Odd(Half(Half(Half(Half(Half(Half(Half(z))))))))
    ensures Reflected8(Xor(z, y)) == Xor(Halves(z), Reflected8(y))
  {
    hide Xor, Half, Odd, Reflected;
    var z1 := Half(z);
    var z2 := Half(z1);
    var z3 := Half(z2);
    var z4 := Half(z3);
    var z5 := Half(z4);
    var z6 := Half(z5);
    var z7 := Half(z6);
    var y1 := Reflected(y);
    var y2 := Reflected(y1);
    var y3 := Reflected(y2);
    var y4 := Reflected(y3);
    var y5 := Reflected(y4);
    var y6 := Reflected(y5);
    var y7 := Reflected(y6);
    StepAbove(z, y);
    StepAbove(z1, y1);
    StepAbove(z2, y2);
    StepAbove(z3, y3);
    StepAbove(z4, y4);
    StepAbove(z5, y5);
    StepAbove(z6, y6);
    StepAbove(z7, y7);
  }

  /** Eight steps divide off the low byte and move the high byte down. */
  lemma SplitByte(x: bv16)
    ensures Reflected8(x) == Xor(x >> 8, Reflected8(x & 0xFF))
  {
    hide Xor, Half, Odd, Reflected8, Halves;
    UpperHalf(x);
    EightAbove(x & 0xFF00, x & 0xFF);
  }

  lemma SameIndex(crc: bv16, b: bv16)
    requires b < 256
    ensures (crc ^ b) >> 8 == crc >> 8 && (crc ^ b) & 0xFF < 256
  {
  }

  /** One byte through the table. */
  function TableStep(crc: bv16, b: bv16): bv16
    requires b < 256
  {
    SameIndex(crc, b);
    Xor(crc >> 8, Lookup((crc ^ b) & 0xFF))
  }

  lemma TableStepIs(crc: bv16, b: bv16)
    requires b < 256
    ensures TableStep(crc, b) == Reflected8(crc ^ b)
  {
    hide Lookup, Reflected8, Xor;
    SameIndex(crc, b);
    SplitByte(crc ^ b);
    TableIsBitwise((crc ^ b) & 0xFF);
  }

  /** `crc16` and `calculate_crc`: byte by byte through the table, and yet the bitwise CRC. */
  method Crc16(seed: bv16, buffer: seq<bv8>) returns (crc: bv16)
    ensures crc == BitByBit(seed, buffer)
  {
    hide TableStep, Reflected8;
    crc := seed;
    var at := 0;
    assert buffer[0..] == buffer;
    while at < |buffer|
      invariant 0 <= at <= |buffer| && BitByBit(crc, buffer[at..]) == BitByBit(seed, buffer)
    {
      TableStepIs(crc, buffer[at] as bv16);
      assert buffer[at..][1..] == buffer[at + 1..];
      crc := TableStep(crc, buffer[at] as bv16);
      at := at + 1;
    }
  }

  /** The CRC of a buffer can be taken piece by piece. */
  lemma {:induction false} Composes(crc: bv16, a: seq<bv8>, b: seq<bv8>)
    ensures BitByBit(crc, a + b) == BitByBit(BitByBit(crc, a), b)
    decreases |a|
  {
    hide Reflected8;
    if a == [] {
      assert a + b == b;
    } else {
      assert (a + b)[1..] == a[1..] + b;
      Composes(Reflected8(crc ^ (a[0] as bv16)), a[1..], b);
    }
  }
}
