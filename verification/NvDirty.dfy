/** Dirty tables: one bit per sector, 32 sectors to a word. */
module NvDirty {
  import opened NvBuffer

  const ONES: bv32 := 0xFFFF_FFFF

  function Count(k: nat): bv32 {
    if k == 0 then 0 else Count(k - 1) + 1
  }

  lemma {:induction false} CountIs(k: nat)
    requires k <= 32
    ensures Count(k) as int == k
  {
    if k > 0 { CountIs(k - 1); }
  }

  /** A number up to 32 as the word the C code shifts by. */
  function Amount(k: nat): (r: bv32)
    requires k <= 32
    ensures r <= 32 && (k < 32 ==> r < 32) && (k > 0 ==> r > 0) && (k == 32 ==> r == 32) && (k == 0 ==> r == 0)
  {
    CountIs(k);
    Count(k)
  }

  predicate Bit(w: bv32, k: nat)
    requires k < 32
  {
    (w >> Amount(k)) & 1 == 1
  }

  predicate IsMarked(table: seq<bv32>, k: nat) {
    k < 32 * |table| && Bit(table[k / 32], k % 32)
  }

  /** The sectors a table marks. */
  ghost function Marks(table: seq<bv32>): set<nat> {
    set k: nat | k < 32 * |table| && IsMarked(table, k)
  }

  // ---- shifts, bit by bit ---------------------------------------------------------------

  lemma {:induction false} AmountSum(i: nat, j: nat)
    requires i + j <= 32
    ensures Amount(i + j) == Amount(i) + Amount(j)
  {
    if j > 0 {
      AmountSum(i, j - 1);
      assert Count(i + j) == Count(i + j - 1) + 1;
    }
  }

  lemma ShiftedUp(w: bv32, s: bv32, d: bv32)
    requires s < 32 && d < 32 && s + d < 32
    ensures ((w << s) >> (s + d)) & 1 == (w >> d) & 1
  {
  }

  lemma ShiftedOut(w: bv32, k: bv32, d: bv32)
    requires k < 32 && 0 < d < 32 && k + d < 32
    ensures ((w << (k + d)) >> k) & 1 == 0
  {
  }

  function Shl(w: bv32, s: nat): bv32
    requires s < 32
  {
    w << Amount(s)
  }

  function Or(x: bv32, y: bv32): bv32 {
    x | y
  }

  lemma ShlBit(w: bv32, s: nat, k: nat)
    requires s < 32 && k < 32
    ensures Bit(Shl(w, s), k) <==> k >= s && Bit(w, k - s)
  {
    hide Bit, Shl;
    if k >= s {
      ShlBitUp(w, s, k - s);
    } else {
      ShlBitOut(w, k, s - k);
    }
  }

  lemma ShlBitUp(w: bv32, s: nat, d: nat)
    requires s + d < 32
    ensures Bit(Shl(w, s), s + d) <==> Bit(w, d)
  {
    hide Amount;
    AmountSum(s, d);
    ShiftedUp(w, Amount(s), Amount(d));
  }

  lemma ShlBitOut(w: bv32, k: nat, d: nat)
    requires d > 0 && k + d < 32
    ensures !Bit(Shl(w, k + d), k)
  {
    hide Amount;
    AmountSum(k, d);
    ShiftedOut(w, Amount(k), Amount(d));
  }

  lemma OnesShiftedDown(k: bv32, m: bv32)
    requires k < 32 && m <= 32
    ensures ((ONES >> m) >> k) & 1 == if k + m < 32 then 1 else 0
  {
  }

  lemma ShrBit(m: nat, k: nat)
    requires m <= 32 && k < 32
    ensures Bit(ONES >> Amount(m), k) <==> k + m < 32
  {
    hide Amount;
    OnesShiftedDown(Amount(k), Amount(m));
    if k + m <= 32 {
      AmountSum(k, m);
    } else {
      AmountSum(k, 32 - k);
      AmountSum(32 - k, m + k - 32);
    }
  }

  lemma OrBit(x: bv32, y: bv32, k: nat)
    requires k < 32
    ensures Bit(Or(x, y), k) <==> Bit(x, k) || Bit(y, k)
  {
    hide Amount;
    OrShifted(x, y, Amount(k));
  }

  lemma OrShifted(x: bv32, y: bv32, a: bv32)
    requires a < 32
    ensures ((x | y) >> a) & 1 == ((x >> a) & 1) | ((y >> a) & 1)
    ensures (x >> a) & 1 == 0 || (x >> a) & 1 == 1
    ensures (y >> a) & 1 == 0 || (y >> a) & 1 == 1
  {
  }

  lemma OnesBit(k: nat)
    requires k < 32
    ensures Bit(ONES, k)
  {
    hide Amount;
    OnesShiftedDown(Amount(k), 0);
  }

  /** The first words `_markDirtyInfo` writes: marked from bit `bits` on. */
  function Upper(w: bv32, bits: nat): bv32
    requires bits < 32
  {
    Or(w, Shl(ONES, bits))
  }

  lemma MarkUpper(w: bv32, bits: nat, b: nat)
    requires bits < 32 && b < 32
    ensures Bit(Upper(w, bits), b) <==> Bit(w, b) || bits <= b
  {
    hide Bit, Shl, Or;
    if b >= bits { OnesBit(b - bits); }
    ShlBit(ONES, bits, b);
    OrBit(w, Shl(ONES, bits), b);
  }

  /** The last word it writes: `n` bits marked from bit `bits` on. */
  function Middle(w: bv32, bits: nat, n: nat): bv32
    requires n <= 32 && bits < 32
  {
    Or(w, Shl(Lowest(n), bits))
  }

  function Lowest(n: nat): bv32
    requires n <= 32
  {
    ONES >> Amount(32 - n)
  }

  lemma MarkMiddle(w: bv32, bits: nat, n: nat, b: nat)
    requires 1 <= n && bits + n <= 32 && b < 32
    ensures Bit(Middle(w, bits, n), b) <==> Bit(w, b) || bits <= b < bits + n
  {
    hide Bit, Lowest, Shl, Or;
    if b >= bits { LowestBit(n, b - bits); }
    ShlBit(Lowest(n), bits, b);
    OrBit(w, Shl(Lowest(n), bits), b);
  }

  lemma LowestBit(n: nat, k: nat)
    requires n <= 32 && k < 32
    ensures Bit(Lowest(n), k) <==> k < n
  {
    hide Amount, Bit;
    ShrBit(32 - n, k);
  }

  /** `table` is `before` with the sectors from `start` up to `end` marked as well. */
  ghost predicate MarkedUpTo(before: seq<bv32>, table: seq<bv32>, start: nat, end: nat) {
    && |before| == |table|
    && forall k: nat :: IsMarked(table, k) <==> IsMarked(before, k) || start <= k < end
  }

  lemma Unmarked(table: seq<bv32>, start: nat)
    ensures MarkedUpTo(table, table, start, start)
  {
  }

  lemma MarkedWord(before: seq<bv32>, table: seq<bv32>, start: nat, j: nat, bits: nat, n: nat, w: bv32)
    requires j < |table| && 1 <= n && bits + n <= 32
    requires MarkedUpTo(before, table, start, 32 * j + bits) && ((bits == 0 && start <= 32 * j) || 32 * j + bits == start)
    requires forall b :: 0 <= b < 32 ==> (Bit(w, b) <==> Bit(table[j], b) || bits <= b < bits + n)
    ensures MarkedUpTo(before, table[j := w], start, 32 * j + bits + n)
  {
    hide Bit;
    forall k: nat
      ensures IsMarked(table[j := w], k) <==> IsMarked(before, k) || start <= k < 32 * j + bits + n
    {
      assert IsMarked(table, k) <==> IsMarked(before, k) || start <= k < 32 * j + bits;
    }
  }

  lemma MarksUnion(before: seq<bv32>, table: seq<bv32>, start: nat, num: nat)
    requires MarkedUpTo(before, table, start, start + num) && start + num <= 32 * |table|
    ensures Marks(table) == Marks(before) + Sectors(start, num)
  {
    hide IsMarked, Sectors;
  }

  /** `_markDirtyInfo`: word by word, the first and the last word partly. */
  method MarkDirtyInfo(table: array<bv32>, start: nat, scts: nat)
    requires table.Length == 32 && scts >= 1 && start + scts <= 1024
    modifies table
    ensures Marks(table[..]) == old(Marks(table[..])) + Sectors(start, scts)
  {
    hide Bit, Marks, Amount, MarkedUpTo, Sectors, Upper, Middle;
    Unmarked(table[..], start);
    ghost var before := table[..];
    var bytes := start / 32;
    var bits := start - 32 * bytes;
    var left := scts;
    while 32 - bits < left
      invariant 0 <= bytes < 32 && 0 <= bits < 32 && left >= 1 && 32 * bytes + bits + left == start + scts
      invariant (bits == 0 && start <= 32 * bytes) || 32 * bytes + bits == start
      invariant MarkedUpTo(before, table[..], start, 32 * bytes + bits)
    {
      ghost var now := table[..];
      var w := Upper(table[bytes], bits);
      forall b | 0 <= b < 32 ensures Bit(w, b) <==> Bit(now[bytes], b) || bits <= b {
        MarkUpper(now[bytes], bits, b);
      }
      MarkedWord(before, now, start, bytes, bits, 32 - bits, w);
      table[bytes] := w;
      assert table[..] == now[bytes := w];
      left := left - (32 - bits);
      bytes := bytes + 1;
      bits := 0;
    }
    ghost var now := table[..];
    var w := Middle(table[bytes], bits, left);
    forall b | 0 <= b < 32 ensures Bit(w, b) <==> Bit(now[bytes], b) || bits <= b < bits + left {
      MarkMiddle(now[bytes], bits, left, b);
    }
    MarkedWord(before, now, start, bytes, bits, left, w);
    table[bytes] := w;
    assert table[..] == now[bytes := w];
    MarksUnion(before, table[..], start, scts);
  }

  // ---- whole tables ---------------------------------------------------------------------

  lemma MarksOr(a: seq<bv32>, b: seq<bv32>, c: seq<bv32>)
    requires |a| == |b| == |c| && forall i :: 0 <= i < |c| ==> c[i] == Or(a[i], b[i])
    ensures Marks(c) == Marks(a) + Marks(b)
  {
    hide Bit, Or;
    forall k: nat ensures IsMarked(c, k) <==> IsMarked(a, k) || IsMarked(b, k) {
      if k < 32 * |c| { OrBit(a[k / 32], b[k / 32], k % 32); }
    }
  }

  lemma LowBitsZero(w: bv32, a: bv32, r: bv32)
    requires a < 32 && r <= 32 && a + r == 32 && w << r == 0 && (w >> a) & 1 != 1
    ensures w << (r - 1) == 0
  {
  }

  lemma {:induction false} NoBits(w: bv32, k: nat)
    requires k <= 32 && forall b :: 0 <= b < k ==> !Bit(w, b)
    ensures w << Amount(32 - k) == 0
  {
    if k == 0 {
      assert w << 32 == 0;
    } else {
      NoBits(w, k - 1);
      assert !Bit(w, k - 1);
      AmountSum(k - 1, 33 - k);
      LowBitsZero(w, Amount(k - 1), Amount(33 - k));
    }
  }

  lemma ZeroHasNoBits(k: bv32)
    requires k < 32
    ensures ((0 as bv32) >> k) & 1 != 1
  {
  }

  /** A table marks nothing exactly when all its words are zero. */
  lemma MarksNothing(table: seq<bv32>)
    ensures Marks(table) == {} <==> forall i :: 0 <= i < |table| ==> table[i] == 0
  {
    hide Amount;
    if Marks(table) == {} {
      forall i | 0 <= i < |table| ensures table[i] == 0 {
        forall b | 0 <= b < 32 ensures !Bit(table[i], b) {
          assert 32 * i + b !in Marks(table);
          assert (32 * i + b) / 32 == i && (32 * i + b) % 32 == b;
        }
        NoBits(table[i], 32);
        assert table[i] << 0 == table[i];
      }
    }
    if forall i :: 0 <= i < |table| ==> table[i] == 0 {
      forall k: nat ensures !IsMarked(table, k) {
        if k < 32 * |table| { ZeroHasNoBits(Amount(k % 32)); }
      }
    }
  }
}
