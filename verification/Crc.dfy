/** The bitwise CRC of the boot protocol: polynomial 0x1021, most significant bit first. */
module Crc {

  const POLY: bv16 := 0x1021

  // ---- the code ---------------------------------------------------------------------------

  /** The 16-bit register after one more bit: the polynomial is subtracted when the bit shifted
      out and the incoming bit differ. */
  function StepBit(c: bv16, bit: bool): bv16 {
    if (c & 0x8000 != 0) != bit then (c << 1) ^ POLY else c << 1
  }

  function Run(c: bv16, bits: seq<bool>): bv16
    decreases |bits|
  {
    if bits == [] then c else Run(StepBit(c, bits[0]), bits[1..])
  }

  /** The values of the mask `i` in the inner loop. */
  function Mask(k: nat): bv8
    requires k < 8
  {
    match k
    case 0 => 0x80
    case 1 => 0x40
    case 2 => 0x20
    case 3 => 0x10
    case 4 => 0x08
    case 5 => 0x04
    case 6 => 0x02
    case _ => 0x01
  }

  predicate Bit8(b: bv8, k: nat)
    requires k < 8
  {
    b & Mask(k) != 0
  }

  /** The bits of a byte, most significant first. */
  function Bits8(b: bv8): (r: seq<bool>)
    ensures |r| == 8
  {
    seq(8, k requires 0 <= k < 8 => Bit8(b, k))
  }

  function Bits(msg: seq<bv8>): (r: seq<bool>)
    ensures |r| == 8 * |msg|
  {
    if msg == [] then [] else Bits8(msg[0]) + Bits(msg[1..])
  }

  /** The CRC of a message: the register after all its bits, from 0. */
  function Crc16(msg: seq<bv8>): bv16 {
    Run(0, Bits(msg))
  }

  lemma {:induction false} RunAppend(c: bv16, a: seq<bool>, b: seq<bool>)
    ensures Run(c, a + b) == Run(Run(c, a), b)
    decreases |a|
  {
    hide StepBit;
    if a == [] {
      assert a + b == b;
    } else {
      assert (a + b)[1..] == a[1..] + b;
      RunAppend(StepBit(c, a[0]), a[1..], b);
    }
  }

  lemma {:induction false} BitsAppend(a: seq<bv8>, b: seq<bv8>)
    ensures Bits(a + b) == Bits(a) + Bits(b)
  {
    hide Bits8;
    if a == [] {
      assert a + b == b;
    } else {
      assert (a + b)[1..] == a[1..] + b;
      BitsAppend(a[1..], b);
    }
  }

  lemma MaskNext(k: nat)
    requires k < 8
    ensures Mask(k) != 0 && Mask(k) >> 1 == if k < 7 then Mask(k + 1) else 0
  {
    assert k == 0 || k == 1 || k == 2 || k == 3 || k == 4 || k == 5 || k == 6 || k == 7;
  }

  lemma NextBit(c: bv16, bits: seq<bool>, k: nat)
    requires k < |bits|
    ensures Run(c, bits[..k + 1]) == StepBit(Run(c, bits[..k]), bits[k])
  {
    hide StepBit;
    assert bits[..k + 1] == bits[..k] + [bits[k]];
    RunAppend(c, bits[..k], [bits[k]]);
  }

  lemma NextByte(buf: seq<bv8>, at: nat)
    requires at < |buf|
    ensures Crc16(buf[..at + 1]) == Run(Crc16(buf[..at]), Bits8(buf[at]))
  {
    hide Bits8, StepBit;
    assert buf[..at + 1] == buf[..at] + [buf[at]];
    BitsAppend(buf[..at], [buf[at]]);
    assert Bits([buf[at]]) == Bits8(buf[at]);
    RunAppend(0, Bits(buf[..at]), Bits8(buf[at]));
  }

  /** The body of the inner loop of `crc_16_l_calc`. */
  method ShiftIn(crc0: bv16, byte: bv8, i: bv8) returns (crc: bv16)
    ensures crc == StepBit(crc0, byte & i != 0)
  {
    crc := crc0;
    if crc & 0x8000 != 0 {
      crc := crc << 1;
      crc := crc ^ POLY;
    } else {
      crc := crc << 1;
    }
    if byte & i != 0 {
      crc := crc ^ POLY;
    }
  }

  lemma NothingYet()
    ensures Crc16([]) == 0
  {
  }

  lemma FirstBit(c: bv16, bits: seq<bool>)
    ensures Mask(0) == 0x80 && Run(c, bits[..0]) == c
  {
  }

  /** `crc_16_l_calc` */
  method Crc16LCalc(buf: seq<bv8>) returns (crc: bv16)
    ensures crc == Crc16(buf)
  {
    hide StepBit, Mask, Run;
    crc := 0;
    var at := 0;
    assert buf[..0] == [] && Crc16([]) == 0 by { NothingYet(); }
    while at < |buf|
      invariant 0 <= at <= |buf| && crc == Crc16(buf[..at])
    {
      ghost var before := crc;
      ghost var bits := Bits8(buf[at]);
      var i: bv8 := 0x80;
      ghost var k := 0;
      assert i == Mask(0) && Run(before, bits[..0]) == before by { FirstBit(before, bits); }
      while i != 0
        invariant 0 <= k <= 8 && i == (if k < 8 then Mask(k) else 0)
        invariant crc == Run(before, bits[..k])
        decreases 8 - k
      {
        MaskNext(k);
        NextBit(before, bits, k);
        crc := ShiftIn(crc, buf[at], i);
        i := i >> 1;
        k := k + 1;
      }
      assert k == 8 by { if k < 8 { MaskNext(k); } }
      assert bits[..8] == bits;
      NextByte(buf, at);
      at := at + 1;
    }
    assert buf[..at] == buf;
  }

  // ---- the register as sixteen coefficients -----------------------------------------------

  /** Bit 15 - `i` of a word. */
  predicate BitAt(c: bv16, i: nat)
    requires i < 16
  {
    match i
    case 0 => c & 0x8000 != 0
    case 1 => c & 0x4000 != 0
    case 2 => c & 0x2000 != 0
    case 3 => c & 0x1000 != 0
    case 4 => c & 0x0800 != 0
    case 5 => c & 0x0400 != 0
    case 6 => c & 0x0200 != 0
    case 7 => c & 0x0100 != 0
    case 8 => c & 0x0080 != 0
    case 9 => c & 0x0040 != 0
    case 10 => c & 0x0020 != 0
    case 11 => c & 0x0010 != 0
    case 12 => c & 0x0008 != 0
    case 13 => c & 0x0004 != 0
    case 14 => c & 0x0002 != 0
    case _ => c & 0x0001 != 0
  }

  /** A register as its bits, bit 15 first. */
  function Reg(c: bv16): (r: seq<bool>)
    ensures |r| == 16
  {
    seq(16, i requires 0 <= i < 16 => BitAt(c, i))
  }

  /** The coefficients of the polynomial, x^12 + x^5 + 1, bit 15 first. */
  predicate Coefficient(i: nat) {
    i == 3 || i == 10 || i == 15
  }

  /** Subtract the polynomial. */
  function Flip(r: seq<bool>): (q: seq<bool>)
    requires |r| == 16
    ensures |q| == 16
  {
    r[3 := !r[3]][10 := !r[10]][15 := !r[15]]
  }

  /** One step of the division. */
  function Divide(r: seq<bool>, bit: bool): (q: seq<bool>)
    requires |r| == 16
    ensures |q| == 16
  {
    if r[0] != bit then Flip(r[1..] + [false]) else r[1..] + [false]
  }

  function DivideAll(r: seq<bool>, bits: seq<bool>): (q: seq<bool>)
    requires |r| == 16
    ensures |q| == 16
    decreases |bits|
  {
    if bits == [] then r else DivideAll(Divide(r, bits[0]), bits[1..])
  }

  lemma ShiftBits(c: bv16)
    ensures ((c << 1) & 0x8000 != 0) == (c & 0x4000 != 0)
    ensures ((c << 1) & 0x4000 != 0) == (c & 0x2000 != 0)
    ensures ((c << 1) & 0x2000 != 0) == (c & 0x1000 != 0)
    ensures ((c << 1) & 0x1000 != 0) == (c & 0x0800 != 0)
    ensures ((c << 1) & 0x0800 != 0) == (c & 0x0400 != 0)
    ensures ((c << 1) & 0x0400 != 0) == (c & 0x0200 != 0)
    ensures ((c << 1) & 0x0200 != 0) == (c & 0x0100 != 0)
    ensures ((c << 1) & 0x0100 != 0) == (c & 0x0080 != 0)
    ensures ((c << 1) & 0x0080 != 0) == (c & 0x0040 != 0)
    ensures ((c << 1) & 0x0040 != 0) == (c & 0x0020 != 0)
    ensures ((c << 1) & 0x0020 != 0) == (c & 0x0010 != 0)
    ensures ((c << 1) & 0x0010 != 0) == (c & 0x0008 != 0)
    ensures ((c << 1) & 0x0008 != 0) == (c & 0x0004 != 0)
    ensures ((c << 1) & 0x0004 != 0) == (c & 0x0002 != 0)
    ensures ((c << 1) & 0x0002 != 0) == (c & 0x0001 != 0)
    ensures ((c << 1) & 0x0001 != 0) == false
  {
  }

  lemma FlipBits(c: bv16)
    ensures ((c ^ POLY) & 0x8000 != 0) == (c & 0x8000 != 0)
    ensures ((c ^ POLY) & 0x4000 != 0) == (c & 0x4000 != 0)
    ensures ((c ^ POLY) & 0x2000 != 0) == (c & 0x2000 != 0)
    ensures ((c ^ POLY) & 0x1000 != 0) != (c & 0x1000 != 0)
    ensures ((c ^ POLY) & 0x0800 != 0) == (c & 0x0800 != 0)
    ensures ((c ^ POLY) & 0x0400 != 0) == (c & 0x0400 != 0)
    ensures ((c ^ POLY) & 0x0200 != 0) == (c & 0x0200 != 0)
    ensures ((c ^ POLY) & 0x0100 != 0) == (c & 0x0100 != 0)
    ensures ((c ^ POLY) & 0x0080 != 0) == (c & 0x0080 != 0)
    ensures ((c ^ POLY) & 0x0040 != 0) == (c & 0x0040 != 0)
    ensures ((c ^ POLY) & 0x0020 != 0) != (c & 0x0020 != 0)
    ensures ((c ^ POLY) & 0x0010 != 0) == (c & 0x0010 != 0)
    ensures ((c ^ POLY) & 0x0008 != 0) == (c & 0x0008 != 0)
    ensures ((c ^ POLY) & 0x0004 != 0) == (c & 0x0004 != 0)
    ensures ((c ^ POLY) & 0x0002 != 0) == (c & 0x0002 != 0)
    ensures ((c ^ POLY) & 0x0001 != 0) != (c & 0x0001 != 0)
  {
  }

  lemma ShiftAt(c: bv16, i: nat)
    requires i < 16
    ensures BitAt(c << 1, i) == (i < 15 && BitAt(c, i + 1))
  {
    ShiftBits(c);
    assert i == 0 || i == 1 || i == 2 || i == 3 || i == 4 || i == 5 || i == 6 || i == 7 || i == 8 || i == 9 || i == 10 || i == 11 || i == 12 || i == 13 || i == 14 || i == 15;
  }

  lemma FlipAt(c: bv16, i: nat)
    requires i < 16
    ensures BitAt(c ^ POLY, i) == (BitAt(c, i) != Coefficient(i))
  {
    FlipBits(c);
    assert i == 0 || i == 1 || i == 2 || i == 3 || i == 4 || i == 5 || i == 6 || i == 7 || i == 8 || i == 9 || i == 10 || i == 11 || i == 12 || i == 13 || i == 14 || i == 15;
  }

  lemma RegShifted(c: bv16)
    ensures Reg(c << 1) == Reg(c)[1..] + [false]
  {
    hide BitAt;
    forall i | 0 <= i < 16 ensures Reg(c << 1)[i] == (Reg(c)[1..] + [false])[i] { ShiftAt(c, i); }
  }

  lemma RegFlipped(c: bv16)
    ensures Reg(c ^ POLY) == Flip(Reg(c))
  {
    hide BitAt;
    forall i | 0 <= i < 16 ensures Reg(c ^ POLY)[i] == Flip(Reg(c))[i] { FlipAt(c, i); }
  }

  lemma RegHead(c: bv16)
    ensures Reg(c)[0] == BitAt(c, 0)
  {
    hide BitAt;
  }

  lemma RegFirst(c: bv16)
    ensures Reg(c)[0] == (c & 0x8000 != 0)
  {
    hide Reg;
    RegHead(c);
  }

  lemma StepDivides(c: bv16, bit: bool)
    ensures Reg(StepBit(c, bit)) == Divide(Reg(c), bit)
  {
    hide Reg, Flip, Divide, StepBit, Doubled, Reduced;
    RegFirst(c);
    DivideCases(Reg(c), bit);
    StepCases(c, bit);
    RegShiftedFlipped(c);
  }

  lemma RegShiftedFlipped(c: bv16)
    ensures Reg(Doubled(c)) == Reg(c)[1..] + [false] && Reg(Reduced(c)) == Flip(Reg(c)[1..] + [false])
  {
    hide Reg, Flip;
    RegShifted(c);
    RegFlipped(c << 1);
  }

  function Doubled(c: bv16): bv16 {
    c << 1
  }

  function Reduced(c: bv16): bv16 {
    (c << 1) ^ POLY
  }

  lemma StepCases(c: bv16, bit: bool)
    ensures StepBit(c, bit) == if (c & 0x8000 != 0) != bit then Reduced(c) else Doubled(c)
  {
  }

  lemma DivideCases(r: seq<bool>, bit: bool)
    requires |r| == 16
    ensures Divide(r, bit) == if r[0] != bit then Flip(r[1..] + [false]) else r[1..] + [false]
  {
  }

  lemma SameBits(x: bv16, y: bv16)
    requires (x & 0x8000 != 0) == (y & 0x8000 != 0)
    requires (x & 0x4000 != 0) == (y & 0x4000 != 0)
    requires (x & 0x2000 != 0) == (y & 0x2000 != 0)
    requires (x & 0x1000 != 0) == (y & 0x1000 != 0)
    requires (x & 0x0800 != 0) == (y & 0x0800 != 0)
    requires (x & 0x0400 != 0) == (y & 0x0400 != 0)
    requires (x & 0x0200 != 0) == (y & 0x0200 != 0)
    requires (x & 0x0100 != 0) == (y & 0x0100 != 0)
    requires (x & 0x0080 != 0) == (y & 0x0080 != 0)
    requires (x & 0x0040 != 0) == (y & 0x0040 != 0)
    requires (x & 0x0020 != 0) == (y & 0x0020 != 0)
    requires (x & 0x0010 != 0) == (y & 0x0010 != 0)
    requires (x & 0x0008 != 0) == (y & 0x0008 != 0)
    requires (x & 0x0004 != 0) == (y & 0x0004 != 0)
    requires (x & 0x0002 != 0) == (y & 0x0002 != 0)
    requires (x & 0x0001 != 0) == (y & 0x0001 != 0)
    ensures x == y
  {
  }

  lemma RegAt(x: bv16, y: bv16, i: nat)
    requires Reg(x) == Reg(y) && i < 16
    ensures BitAt(x, i) == BitAt(y, i)
  {
    hide BitAt;
    assert Reg(x)[i] == Reg(y)[i];
  }

  lemma RegInjective(x: bv16, y: bv16)
    requires Reg(x) == Reg(y)
    ensures x == y
  {
    hide Reg;
    RegAt(x, y, 0); RegAt(x, y, 1); RegAt(x, y, 2); RegAt(x, y, 3);
    RegAt(x, y, 4); RegAt(x, y, 5); RegAt(x, y, 6); RegAt(x, y, 7);
    RegAt(x, y, 8); RegAt(x, y, 9); RegAt(x, y, 10); RegAt(x, y, 11);
    RegAt(x, y, 12); RegAt(x, y, 13); RegAt(x, y, 14); RegAt(x, y, 15);
    SameBits(x, y);
  }

  /** The code divides by the polynomial. */
  lemma {:induction false} RunDivides(c: bv16, bits: seq<bool>)
    ensures Reg(Run(c, bits)) == DivideAll(Reg(c), bits)
    decreases |bits|
  {
    hide StepBit, Reg, Divide;
    if bits != [] {
      StepDivides(c, bits[0]);
      RunDivides(StepBit(c, bits[0]), bits[1..]);
    }
  }

  // ---- error detection --------------------------------------------------------------------

  lemma DivideAt(r: seq<bool>, bit: bool, i: nat)
    requires |r| == 16 && i < 16
    ensures Divide(r, bit)[i] == ((i < 15 && r[i + 1]) != ((r[0] != bit) && Coefficient(i)))
  {
  }

  /** The polynomial has a constant term, so a step loses nothing. */
  lemma DivideInjective(a: seq<bool>, b: seq<bool>, bit: bool)
    requires |a| == |b| == 16 && Divide(a, bit) == Divide(b, bit)
    ensures a == b
  {
    hide Divide;
    DivideAt(a, bit, 15);
    DivideAt(b, bit, 15);
    assert a[0] == b[0];
    forall i | 0 <= i < 16 ensures a[i] == b[i] {
      if i > 0 {
        DivideAt(a, bit, i - 1);
        DivideAt(b, bit, i - 1);
      }
    }
  }

  /** Different registers stay different over the same bits. */
  lemma {:induction false} DifferenceStays(a: seq<bool>, b: seq<bool>, bits: seq<bool>)
    requires |a| == |b| == 16 && a != b
    ensures DivideAll(a, bits) != DivideAll(b, bits)
    decreases |bits|
  {
    hide Divide;
    if bits != [] {
      if Divide(a, bits[0]) == Divide(b, bits[0]) { DivideInjective(a, b, bits[0]); }
      DifferenceStays(Divide(a, bits[0]), Divide(b, bits[0]), bits[1..]);
    }
  }

  /** A register with up to sixteen bits added to it, the first one at bit 15. */
  function Add(r: seq<bool>, bits: seq<bool>): (q: seq<bool>)
    requires |r| == 16
    ensures |q| == 16 && forall i :: 0 <= i < 16 ==> q[i] == (r[i] != (i < |bits| && bits[i]))
  {
    seq(16, i requires 0 <= i < 16 => r[i] != (i < |bits| && bits[i]))
  }

  function Zeros(n: nat): (r: seq<bool>)
    ensures |r| == n && forall i :: 0 <= i < n ==> !r[i]
  {
    seq(n, _ => false)
  }

  lemma AddThenDivide(r: seq<bool>, bits: seq<bool>)
    requires |r| == 16 && 0 < |bits| <= 16
    ensures Divide(Add(r, bits), false) == Add(Divide(r, bits[0]), bits[1..])
  {
    hide Divide, Coefficient;
    forall i | 0 <= i < 16 ensures Divide(Add(r, bits), false)[i] == Add(Divide(r, bits[0]), bits[1..])[i] {
      DivideAt(Add(r, bits), false, i);
      DivideAt(r, bits[0], i);
    }
  }

  /** Reading up to sixteen bits is the same as adding them to the register and then reading zeros. */
  lemma {:induction false} ReadAtOnce(r: seq<bool>, bits: seq<bool>)
    requires |r| == 16 && |bits| <= 16
    ensures DivideAll(r, bits) == DivideAll(Add(r, bits), Zeros(|bits|))
    decreases |bits|
  {
    hide Divide;
    if bits == [] {
      assert Add(r, bits) == r;
    } else {
      AddThenDivide(r, bits);
      ReadAtOnce(Divide(r, bits[0]), bits[1..]);
      assert Zeros(|bits|)[1..] == Zeros(|bits| - 1);
    }
  }

  /** Different bits in a window of at most sixteen leave different registers. */
  lemma WindowDetected(r: seq<bool>, a: seq<bool>, b: seq<bool>)
    requires |r| == 16 && |a| == |b| <= 16 && a != b
    ensures DivideAll(r, a) != DivideAll(r, b)
  {
    hide DivideAll;
    ReadAtOnce(r, a);
    ReadAtOnce(r, b);
    var i :| 0 <= i < |a| && a[i] != b[i];
    assert Add(r, a)[i] != Add(r, b)[i];
    DifferenceStays(Add(r, a), Add(r, b), Zeros(|a|));
  }

  lemma {:induction false} DivideAppend(r: seq<bool>, a: seq<bool>, b: seq<bool>)
    requires |r| == 16
    ensures DivideAll(r, a + b) == DivideAll(DivideAll(r, a), b)
    decreases |a|
  {
    hide Divide;
    if a == [] {
      assert a + b == b;
    } else {
      assert (a + b)[1..] == a[1..] + b;
      DivideAppend(Divide(r, a[0]), a[1..], b);
    }
  }

  /** Two bit strings that differ, but only inside a window of at most sixteen bits. */
  ghost predicate BurstApart(a: seq<bool>, b: seq<bool>, from: nat, width: nat) {
    && |a| == |b| && a != b && width <= 16
    && forall i :: 0 <= i < |a| && !(from <= i < from + width) ==> a[i] == b[i]
  }

  /** Where the window ends. */
  function WindowEnd(a: seq<bool>, from: nat, width: nat): nat {
    if from + width <= |a| then from + width else |a|
  }

  lemma BurstParts(a: seq<bool>, b: seq<bool>, from: nat, width: nat)
    requires BurstApart(a, b, from, width)
    ensures var end := WindowEnd(a, from, width);
            && |a| == |b| && from <= end <= |a| && end - from <= 16
            && a[..from] == b[..from] && a[end..] == b[end..] && a[from..end] != b[from..end]
  {
    var i :| 0 <= i < |a| && a[i] != b[i];
    var end := WindowEnd(a, from, width);
    assert from <= i < end;
    assert a[from..end][i - from] == a[i] && b[from..end][i - from] == b[i];
  }

  lemma BurstDetected(r: seq<bool>, a: seq<bool>, b: seq<bool>, from: nat, width: nat)
    requires |r| == 16 && BurstApart(a, b, from, width)
    ensures DivideAll(r, a) != DivideAll(r, b)
  {
    hide *;
    BurstParts(a, b, from, width);
    var end := WindowEnd(a, from, width);
    DivideParts(r, a, from, end);
    DivideParts(r, b, from, end);
    var c := DivideAll(r, a[..from]);
    WindowDetected(c, a[from..end], b[from..end]);
    DifferenceStays(DivideAll(c, a[from..end]), DivideAll(c, b[from..end]), a[end..]);
  }

  lemma DivideParts(r: seq<bool>, a: seq<bool>, from: nat, to: nat)
    requires |r| == 16 && from <= to <= |a|
    ensures DivideAll(r, a) == DivideAll(DivideAll(DivideAll(r, a[..from]), a[from..to]), a[to..])
  {
    hide DivideAll;
    assert a == a[..from] + a[from..to] + a[to..];
    DivideAppend(r, a[..from] + a[from..to], a[to..]);
    DivideAppend(r, a[..from], a[from..to]);
  }

  /** Messages of any length that differ only inside a window of at most sixteen consecutive bits
      have different CRCs. */
  lemma BurstErrorsDetected(a: seq<bv8>, b: seq<bv8>, from: nat, width: nat)
    requires BurstApart(Bits(a), Bits(b), from, width)
    ensures Crc16(a) != Crc16(b)
  {
    hide DivideAll, Run, BurstApart, Reg;
    RunDivides(0, Bits(a));
    RunDivides(0, Bits(b));
    BurstDetected(Reg(0), Bits(a), Bits(b), from, width);
  }

  // ---- division of polynomials ------------------------------------------------------------

  // A polynomial over GF(2) is the string of its coefficients, the highest power first.

  function Sum(a: seq<bool>, b: seq<bool>): (r: seq<bool>)
    requires |a| == |b|
    ensures |r| == |a| && forall i :: 0 <= i < |r| ==> r[i] == (a[i] != b[i])
  {
    seq(|a|, i requires 0 <= i < |a| => a[i] != b[i])
  }

  function Scaled(b: bool, g: seq<bool>): (r: seq<bool>)
    ensures |r| == |g| && forall i :: 0 <= i < |r| ==> r[i] == (b && g[i])
  {
    seq(|g|, i requires 0 <= i < |g| => b && g[i])
  }

  /** The product of two polynomials: `(q x + b) g == (q g) x + b g`. */
  function Product(q: seq<bool>, g: seq<bool>): (r: seq<bool>)
    requires g != []
    ensures |r| == |q| + |g| - 1
  {
    if q == [] then Zeros(|g| - 1)
    else
      var n := |q| - 1;
      Sum(Product(q[..n], g) + [false], Zeros(n) + Scaled(q[n], g))
  }

  /** x^16 + x^12 + x^5 + 1 */
  function Generator(): (g: seq<bool>)
    ensures |g| == 17 && g[0] && forall i :: 0 <= i < 16 ==> g[i + 1] == Coefficient(i)
  {
    [true] + seq(16, i requires 0 <= i < 16 => Coefficient(i))
  }

  /** `bits` x^16 is the product of `q` and the generator, plus `r`. */
  predicate Divides(bits: seq<bool>, q: seq<bool>, r: seq<bool>) {
    |q| == |bits| && |r| == 16 && bits + Zeros(16) == Sum(Product(q, Generator()), Zeros(|bits|) + r)
  }

  lemma ProductAt(q: seq<bool>, b: bool, g: seq<bool>, i: nat)
    requires g != [] && i < |q| + |g|
    ensures Product(q + [b], g)[i]
         == ((i < |q| + |g| - 1 && Product(q, g)[i]) != (i >= |q| && b && g[i - |q|]))
  {
    hide Product;
    ProductLast(q, b, g);
  }

  lemma ProductLast(q: seq<bool>, b: bool, g: seq<bool>)
    requires g != []
    ensures Product(q + [b], g) == Sum(Product(q, g) + [false], Zeros(|q|) + Scaled(b, g))
  {
    hide Sum, Scaled, Zeros;
    assert (q + [b])[..|q|] == q;
  }

  /** The next bit of the quotient and of the message, and the next remainder. */
  lemma DivisionStep(bits: seq<bool>, q: seq<bool>, r: seq<bool>, bit: bool)
    requires Divides(bits, q, r)
    ensures Divides(bits + [bit], q + [r[0] != bit], Divide(r, bit))
  {
    hide Product, Generator, Divide, Coefficient;
    var n, t := |bits|, r[0] != bit;
    var before, after := Sum(Product(q, Generator()), Zeros(n) + r),
      Sum(Product(q + [t], Generator()), Zeros(n + 1) + Divide(r, bit));
    forall i | 0 <= i < n + 17 ensures (bits + [bit] + Zeros(16))[i] == after[i] {
      ProductAt(q, t, Generator(), i);
      if i < n + 16 {
        assert (bits + Zeros(16))[i] == before[i];
      }
      if i > n {
        DivideAt(r, bit, i - n - 1);
      }
    }
  }

  /** What the division has taken from the message so far. */
  function Quotient(bits: seq<bool>): (q: seq<bool>)
    ensures |q| == |bits|
  {
    if bits == [] then []
    else
      var n := |bits| - 1;
      Quotient(bits[..n]) + [DivideAll(Zeros(16), bits[..n])[0] != bits[n]]
  }

  lemma {:induction false} DivisionHolds(bits: seq<bool>)
    ensures Divides(bits, Quotient(bits), DivideAll(Zeros(16), bits))
  {
    hide Divide, Divides;
    if bits == [] {
      NothingDivided();
    } else {
      var n := |bits| - 1;
      var r := DivideAll(Zeros(16), bits[..n]);
      DivisionHolds(bits[..n]);
      DivisionStep(bits[..n], Quotient(bits[..n]), r, bits[n]);
      assert bits == bits[..n] + [bits[n]];
      DivideAppend(Zeros(16), bits[..n], [bits[n]]);
      assert DivideAll(r, [bits[n]]) == Divide(r, bits[n]);
    }
  }

  lemma NothingDivided()
    ensures Divides([], [], Zeros(16))
  {
    assert Product([], Generator()) == Zeros(16);
    assert Zeros(0) == [];
  }

  /** The leading coefficients of a product determine the factor. */
  lemma {:induction false} FactorUnique(q: seq<bool>, p: seq<bool>)
    requires |q| == |p| && Product(q, Generator())[..|q|] == Product(p, Generator())[..|q|]
    ensures q == p
  {
    hide Product, Generator;
    if q != [] {
      var n, g := |q| - 1, Generator();
      assert q == q[..n] + [q[n]] && p == p[..n] + [p[n]];
      forall i | 0 <= i < n ensures Product(q[..n], g)[i] == Product(p[..n], g)[i] {
        ProductAt(q[..n], q[n], g, i);
        ProductAt(p[..n], p[n], g, i);
        assert Product(q, g)[..|q|][i] == Product(p, g)[..|q|][i];
      }
      FactorUnique(q[..n], p[..n]);
      ProductAt(q[..n], q[n], g, n);
      ProductAt(p[..n], p[n], g, n);
      assert Product(q, g)[..|q|][n] == Product(p, g)[..|q|][n];
    }
  }

  lemma DivisionUnique(bits: seq<bool>, q: seq<bool>, r: seq<bool>, p: seq<bool>, s: seq<bool>)
    requires Divides(bits, q, r) && Divides(bits, p, s)
    ensures q == p && r == s
  {
    hide Product, Generator;
    var n, g := |bits|, Generator();
    var a, b := Sum(Product(q, g), Zeros(n) + r), Sum(Product(p, g), Zeros(n) + s);
    forall i | 0 <= i < n ensures Product(q, g)[i] == Product(p, g)[i] {
      assert a[i] == b[i];
    }
    FactorUnique(q, p);
    forall k | 0 <= k < 16 ensures r[k] == s[k] {
      assert a[n + k] == b[n + k];
    }
  }

  /** The CRC is the remainder, the only one, of the message times x^16 on division by
      x^16 + x^12 + x^5 + 1. */
  lemma CrcIsRemainder(msg: seq<bv8>, q: seq<bool>, r: seq<bool>)
    ensures Divides(Bits(msg), q, r) <==> q == Quotient(Bits(msg)) && r == Reg(Crc16(msg))
  {
    hide Divides, Quotient, Bits, Run, Reg, DivideAll;
    var bits := Bits(msg);
    RunDivides(0, bits);
    RegZero(0);
    DivisionHolds(bits);
    if Divides(bits, q, r) {
      DivisionUnique(bits, q, r, Quotient(bits), Reg(Crc16(msg)));
    }
  }

  // ---- a message followed by its CRC ------------------------------------------------------

  function High(c: bv16): bv8 {
    (c >> 8) as bv8
  }

  function Low(c: bv16): bv8 {
    (c & 0xFF) as bv8
  }

  lemma HighBits(c: bv16, hi: bv8)
    requires hi == High(c)
    ensures (hi & 0x80 != 0) == (c & 0x8000 != 0)
    ensures (hi & 0x40 != 0) == (c & 0x4000 != 0)
    ensures (hi & 0x20 != 0) == (c & 0x2000 != 0)
    ensures (hi & 0x10 != 0) == (c & 0x1000 != 0)
    ensures (hi & 0x08 != 0) == (c & 0x0800 != 0)
    ensures (hi & 0x04 != 0) == (c & 0x0400 != 0)
    ensures (hi & 0x02 != 0) == (c & 0x0200 != 0)
    ensures (hi & 0x01 != 0) == (c & 0x0100 != 0)
  {
  }

  lemma LowBits(c: bv16, lo: bv8)
    requires lo == Low(c)
    ensures (lo & 0x80 != 0) == (c & 0x0080 != 0)
    ensures (lo & 0x40 != 0) == (c & 0x0040 != 0)
    ensures (lo & 0x20 != 0) == (c & 0x0020 != 0)
    ensures (lo & 0x10 != 0) == (c & 0x0010 != 0)
    ensures (lo & 0x08 != 0) == (c & 0x0008 != 0)
    ensures (lo & 0x04 != 0) == (c & 0x0004 != 0)
    ensures (lo & 0x02 != 0) == (c & 0x0002 != 0)
    ensures (lo & 0x01 != 0) == (c & 0x0001 != 0)
  {
  }

  lemma HighAt(c: bv16, i: nat)
    requires i < 8
    ensures Bit8(High(c), i) == BitAt(c, i)
  {
    hide High;
    HighBits(c, High(c));
    assert i == 0 || i == 1 || i == 2 || i == 3 || i == 4 || i == 5 || i == 6 || i == 7;
  }

  lemma LowAt(c: bv16, i: nat)
    requires i < 8
    ensures Bit8(Low(c), i) == BitAt(c, i + 8)
  {
    hide Low;
    LowBits(c, Low(c));
    assert i == 0 || i == 1 || i == 2 || i == 3 || i == 4 || i == 5 || i == 6 || i == 7;
  }

  lemma BytesOfRegister(c: bv16)
    ensures Bits([High(c), Low(c)]) == Reg(c)
  {
    hide Bit8, BitAt, High, Low;
    var bits := Bits8(High(c)) + Bits8(Low(c));
    assert [High(c), Low(c)][1..] == [Low(c)] && [Low(c)][1..] == [];
    assert Bits([Low(c)]) == Bits8(Low(c));
    forall i | 0 <= i < 16 ensures bits[i] == Reg(c)[i] {
      if i < 8 { HighAt(c, i); } else { LowAt(c, i - 8); }
    }
  }

  lemma {:induction false} ZeroStays(n: nat)
    ensures DivideAll(Zeros(16), Zeros(n)) == Zeros(16)
    decreases n
  {
    if n > 0 {
      assert Zeros(n)[1..] == Zeros(n - 1);
      assert Divide(Zeros(16), false) == Zeros(16);
      ZeroStays(n - 1);
    }
  }

  /** A register is cleared by exactly its own sixteen bits. */
  lemma ClearedByItself(r: seq<bool>, bits: seq<bool>)
    requires |r| == |bits| == 16
    ensures DivideAll(r, bits) == Zeros(16) <==> bits == r
  {
    hide DivideAll;
    ReadAtOnce(r, bits);
    ZeroStays(16);
    if bits == r {
      assert Add(r, bits) == Zeros(16);
    } else {
      var i :| 0 <= i < 16 && bits[i] != r[i];
      assert Add(r, bits)[i] != Zeros(16)[i];
      DifferenceStays(Add(r, bits), Zeros(16), Zeros(16));
    }
  }

  lemma RegZero(c: bv16)
    ensures Reg(c) == Zeros(16) <==> c == 0
  {
    assert Reg(0) == Zeros(16) by {
      forall i | 0 <= i < 16 ensures !BitAt(0, i) { }
    }
    hide Reg;
    if Reg(c) == Zeros(16) { RegInjective(c, 0); }
  }

  /** A message followed by two more bytes has CRC 0, the value `CRC_16_L_OK`, exactly if the two
      bytes are its own CRC, most significant byte first. */
  lemma OwnCrcChecks(msg: seq<bv8>, h: bv8, l: bv8)
    ensures Crc16(msg + [h, l]) == 0 <==> h == High(Crc16(msg)) && l == Low(Crc16(msg))
  {
    hide DivideAll, Run, Reg, High, Low, Bits8;
    var c := Crc16(msg);
    BitsAppend(msg, [h, l]);
    RunAppend(0, Bits(msg), Bits([h, l]));
    RunDivides(c, Bits([h, l]));
    ClearedByItself(Reg(c), Bits([h, l]));
    RegZero(Crc16(msg + [h, l]));
    BytesOfRegister(c);
    if Bits([h, l]) == Reg(c) {
      BitsInjective([h, l], [High(c), Low(c)]);
      assert [h, l][0] == High(c) && [h, l][1] == Low(c);
    }
  }

  lemma SameByte(x: bv8, y: bv8)
    requires (x & 0x80 != 0) == (y & 0x80 != 0)
    requires (x & 0x40 != 0) == (y & 0x40 != 0)
    requires (x & 0x20 != 0) == (y & 0x20 != 0)
    requires (x & 0x10 != 0) == (y & 0x10 != 0)
    requires (x & 0x08 != 0) == (y & 0x08 != 0)
    requires (x & 0x04 != 0) == (y & 0x04 != 0)
    requires (x & 0x02 != 0) == (y & 0x02 != 0)
    requires (x & 0x01 != 0) == (y & 0x01 != 0)
    ensures x == y
  {
  }

  lemma Bits8At(x: bv8, y: bv8, k: nat)
    requires Bits8(x) == Bits8(y) && k < 8
    ensures Bit8(x, k) == Bit8(y, k)
  {
    hide Bit8;
    assert Bits8(x)[k] == Bits8(y)[k];
  }

  lemma Bits8Injective(x: bv8, y: bv8)
    requires Bits8(x) == Bits8(y)
    ensures x == y
  {
    hide Bits8;
    Bits8At(x, y, 0); Bits8At(x, y, 1); Bits8At(x, y, 2); Bits8At(x, y, 3);
    Bits8At(x, y, 4); Bits8At(x, y, 5); Bits8At(x, y, 6); Bits8At(x, y, 7);
    SameByte(x, y);
  }

  /** Different messages have different bits. */
  lemma {:induction false} BitsInjective(a: seq<bv8>, b: seq<bv8>)
    requires Bits(a) == Bits(b)
    ensures a == b
  {
    hide Bits8;
    assert |a| == |b|;
    if a != [] {
      assert Bits(a)[..8] == Bits8(a[0]) && Bits(a)[8..] == Bits(a[1..]);
      assert Bits(b)[..8] == Bits8(b[0]) && Bits(b)[8..] == Bits(b[1..]);
      BitsInjective(a[1..], b[1..]);
      Bits8Injective(a[0], b[0]);
      assert a == [a[0]] + a[1..] && b == [b[0]] + b[1..];
    }
  }

  /** A buffer with the header written at 4 and two bytes behind the data. */
  function Framed(before: seq<bv8>, head: seq<bv8>, n: nat, h: bv8, l: bv8): (r: seq<bv8>)
    requires |head| == 4 && |before| >= n + 10
    ensures |r| == |before|
    ensures r[..4] == before[..4] && r[4..8] == head && r[8..8 + n] == before[8..8 + n]
    ensures r[4..8 + n] == head + before[8..8 + n] && r[4..10 + n] == head + before[8..8 + n] + [h, l]
    ensures r[10 + n..] == before[10 + n..]
  {
    before[..4] + head + before[8..8 + n] + [h, l] + before[10 + n..]
  }

  function Weight(bit: bool, w: nat): nat {
    if bit then w else 0
  }

  /** The number that a byte stands for. */
  function Value(b: bv8): nat {
    Weight(b & 0x80 != 0, 128) + Weight(b & 0x40 != 0, 64) + Weight(b & 0x20 != 0, 32) + Weight(b & 0x10 != 0, 16)
    + Weight(b & 0x08 != 0, 8) + Weight(b & 0x04 != 0, 4) + Weight(b & 0x02 != 0, 2) + Weight(b & 0x01 != 0, 1)
  }

  function Pick(bit: bool, m: bv8): bv8 {
    if bit then m else 0
  }

  function FromBits(b7: bool, b6: bool, b5: bool, b4: bool, b3: bool, b2: bool, b1: bool, b0: bool): (b: bv8)
    ensures (b & 0x80 != 0) == b7 && (b & 0x40 != 0) == b6 && (b & 0x20 != 0) == b5 && (b & 0x10 != 0) == b4
    ensures (b & 0x08 != 0) == b3 && (b & 0x04 != 0) == b2 && (b & 0x02 != 0) == b1 && (b & 0x01 != 0) == b0
  {
    Pick(b7, 0x80) | Pick(b6, 0x40) | Pick(b5, 0x20) | Pick(b4, 0x10)
    | Pick(b3, 0x08) | Pick(b2, 0x04) | Pick(b1, 0x02) | Pick(b0, 0x01)
  }

  predicate Odd(n: nat) {
    n % 2 == 1
  }

  function Half(n: nat): nat {
    n / 2
  }

  /** The low eight bits of a number. */
  function Byte(n: nat): (b: bv8) {
    var n1 := Half(n); var n2 := Half(n1); var n3 := Half(n2); var n4 := Half(n3);
    var n5 := Half(n4); var n6 := Half(n5); var n7 := Half(n6);
    FromBits(Odd(n7), Odd(n6), Odd(n5), Odd(n4), Odd(n3), Odd(n2), Odd(n1), Odd(n))
  }

  lemma ValueOf(b7: bool, b6: bool, b5: bool, b4: bool, b3: bool, b2: bool, b1: bool, b0: bool)
    ensures Value(FromBits(b7, b6, b5, b4, b3, b2, b1, b0))
         == Weight(b7, 128) + Weight(b6, 64) + Weight(b5, 32) + Weight(b4, 16)
            + Weight(b3, 8) + Weight(b2, 4) + Weight(b1, 2) + Weight(b0, 1)
  {
    hide FromBits, Weight;
  }

  lemma Halve(n: nat, w: nat)
    ensures w * n == 2 * w * Half(n) + Weight(Odd(n), w)
  {
    assert n == 2 * (n / 2) + n % 2;
  }

  lemma LowByte(n: nat, high: nat, low: nat)
    requires n == 256 * high + low && low < 256
    ensures n % 256 == low
  {
  }

  lemma ByteValue(n: nat)
    ensures Value(Byte(n)) == n % 256
  {
    hide Value, FromBits, Half, Odd;
    var n1 := Half(n); var n2 := Half(n1); var n3 := Half(n2); var n4 := Half(n3);
    var n5 := Half(n4); var n6 := Half(n5); var n7 := Half(n6);
    ValueOf(Odd(n7), Odd(n6), Odd(n5), Odd(n4), Odd(n3), Odd(n2), Odd(n1), Odd(n));
    Halve(n, 1);
    Halve(n1, 2);
    Halve(n2, 4);
    Halve(n3, 8);
    Halve(n4, 16);
    Halve(n5, 32);
    Halve(n6, 64);
    Halve(n7, 128);
    LowByte(n, Half(n7), Value(Byte(n)));
  }

  /** The type of a message and the length of its body, most significant byte first. */
  function PacketHead(msg: bv16, dataSize: nat): (head: seq<bv8>)
    ensures |head| == 4
  {
    [High(msg), Low(msg), Byte(dataSize / 256), Byte(dataSize)]
  }

  /** The first two bytes spell the type, the most significant bit first; the others the length of the body
      without all but its low 16 bits. */
  lemma PacketLength(msg: bv16, dataSize: nat)
    ensures var head := PacketHead(msg, dataSize);
            && Bits(head[..2]) == Reg(msg)
            && 256 * Value(head[2]) + Value(head[3]) == dataSize % 0x10000
  {
    hide Value, Byte, High, Low, Reg, Bits;
    ByteValue(dataSize / 256);
    ByteValue(dataSize);
    TwoBytes(dataSize);
    BytesOfRegister(msg);
    assert PacketHead(msg, dataSize)[..2] == [High(msg), Low(msg)];
  }

  lemma TwoBytes(n: nat)
    ensures 256 * (n / 256 % 256) + n % 256 == n % 0x10000
  {
    var q := n / 256;
    assert n == 256 * q + n % 256 && q == 256 * (q / 256) + q % 256;
    var low := 256 * (q % 256) + n % 256;
    assert n == 0x10000 * (q / 256) + low && 0 <= low < 0x10000;
    Remainder(n, q / 256, low);
  }

  lemma Remainder(n: nat, high: nat, low: nat)
    requires n == 0x10000 * high + low && low < 0x10000
    ensures n % 0x10000 == low
  {
  }

  /** `setup_packet` for the UART messages that carry a CRC: header fields and CRC are written around
      the data already in the buffer, most significant byte first. */
  method SetupUartPacket(buffer: array<bv8>, msg: bv16, dataSize: nat) returns (total: nat)
    requires buffer.Length >= dataSize + 10
    modifies buffer
    ensures total == dataSize + 6 && Crc16(buffer[4..4 + total]) == 0
    ensures exists h, l :: buffer[..] == Framed(old(buffer[..]), PacketHead(msg, dataSize), dataSize, h, l)
  {
    hide Crc16, High, Low, Framed, PacketHead;
    var length := 4 + dataSize;
    var head := PacketHead(msg, dataSize);
    ghost var before := buffer[..];
    buffer[4], buffer[5], buffer[6], buffer[7] := head[0], head[1], head[2], head[3];
    var covered := buffer[4..length + 4];
    var crc := Crc16LCalc(covered);
    buffer[length + 4], buffer[length + 5] := High(crc), Low(crc);
    total := length + 2;
    ghost var after := Framed(before, head, dataSize, High(crc), Low(crc));
    assert buffer[..] == after by { Layout(before, buffer[..], head, dataSize, High(crc), Low(crc)); }
    assert buffer[4..4 + total] == buffer[..][4..10 + dataSize] == covered + [High(crc), Low(crc)];
    OwnCrcChecks(covered, High(crc), Low(crc));
  }

  lemma Layout(before: seq<bv8>, after: seq<bv8>, head: seq<bv8>, n: nat, h: bv8, l: bv8)
    requires |head| == 4 && |before| == |after| >= n + 10
    requires forall i :: 0 <= i < |before| && !(4 <= i < 8) && i != 8 + n && i != 9 + n ==> after[i] == before[i]
    requires after[4] == head[0] && after[5] == head[1] && after[6] == head[2] && after[7] == head[3]
    requires after[8 + n] == h && after[9 + n] == l
    ensures after == Framed(before, head, n, h, l)
  {
  }
}
