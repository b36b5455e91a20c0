/** The Internet-style checksums of the NV store and of the boot protocol (section 4.1 of RFC 1071). */
module Checksum {
  import opened Words

  /** The sum of the little-endian 16-bit words of `s`, a last odd byte counting as a word. */
  function RawSum(s: seq<u8>): nat {
    if |s| == 0 then 0
    else if |s| == 1 then s[0]
    else s[0] as int + 0x100 * s[1] as int + RawSum(s[2..])
  }

  /** Fold a 32-bit sum twice and complement it. */
  function Finish(sum: u32): u16 {
    var once := sum / 0x1_0000 + sum % 0x1_0000;
    var twice := once + once / 0x1_0000;
    0xFFFF - twice % 0x1_0000
  }

  /** What the code computes: the sum is kept in a 32-bit variable. */
  function Checksum32(s: seq<u8>): u16 {
    Finish(RawSum(s) % 0x1_0000_0000)
  }

  /** One's-complement addition: a carry out of bit 15 is added back at bit 0. */
  function OnesAdd(a: u16, b: u16): u16 {
    if a as int + b as int > 0xFFFF then a as int + b as int - 0xFFFF else a as int + b as int
  }

  /** The one's-complement sum of the 16-bit words of `s`. */
  function OnesSum(s: seq<u8>): u16 {
    if |s| == 0 then 0
    else if |s| == 1 then s[0]
    else OnesAdd(s[0] as int + 0x100 * s[1] as int, OnesSum(s[2..]))
  }

  /** A number and its one's-complement 16-bit form: equal modulo 65535, and zero only for zero. */
  ghost predicate Congruent(sum: nat, ones: u16) {
    sum % 0xFFFF == ones % 0xFFFF && (sum == 0 <==> ones == 0)
  }

  lemma {:induction false} OnesSumCongruent(s: seq<u8>)
    ensures Congruent(RawSum(s), OnesSum(s))
  {
    hide Congruent, OnesAdd;
    if |s| <= 1 {
      CongruentSmall(RawSum(s));
    } else {
      OnesSumCongruent(s[2..]);
      CongruentAdd(s[0] as int + 0x100 * s[1] as int, RawSum(s[2..]), OnesSum(s[2..]));
    }
  }

  lemma CongruentSmall(w: u16)
    ensures Congruent(w, w)
  {
  }

  lemma CongruentAdd(w: u16, sum: nat, ones: u16)
    requires Congruent(sum, ones)
    ensures Congruent(w + sum, OnesAdd(w, ones))
  {
    var q, q' := sum / 0xFFFF, ones / 0xFFFF;
    assert w + sum == 0xFFFF * (q - q') + (w + ones);
    assert (w + sum) % 0xFFFF == (w + ones) % 0xFFFF;
  }

  lemma FinishCongruent(sum: u32)
    ensures Congruent(sum, 0xFFFF - Finish(sum))
  {
    hide Congruent;
    var once := sum / 0x1_0000 + sum % 0x1_0000;
    CongruentShift(sum, sum / 0x1_0000, once);
    if once < 0x1_0000 {
      assert Finish(sum) == 0xFFFF - once;
      CongruentSmall(once);
    } else {
      assert once / 0x1_0000 == 1 && Finish(sum) == 0xFFFF - (once - 0xFFFF);
      CongruentSmall(once - 0xFFFF);
      CongruentShift(once, 1, once - 0xFFFF);
    }
    CongruentChain(sum, once, 0xFFFF - Finish(sum));
  }

  lemma CongruentShift(sum: nat, k: nat, rest: nat)
    requires sum == 0xFFFF * k + rest && (rest == 0 ==> k == 0)
    ensures sum % 0xFFFF == rest % 0xFFFF && (sum == 0 <==> rest == 0)
  {
  }

  lemma CongruentChain(sum: nat, once: nat, ones: u16)
    requires sum % 0xFFFF == once % 0xFFFF == ones % 0xFFFF && (sum == 0 <==> once == 0) && (once == 0 <==> ones == 0)
    ensures Congruent(sum, ones)
  {
  }

  lemma CongruentUnique(sum: nat, a: u16, b: u16)
    requires Congruent(sum, a) && Congruent(sum, b)
    ensures a == b
  {
  }

  lemma {:induction false} RawSumBound(s: seq<u8>)
    ensures RawSum(s) <= 0xFFFF * ((|s| + 1) / 2)
  {
    if |s| >= 2 { RawSumBound(s[2..]); }
  }

  lemma LostCarries(low: nat, lost: nat)
    requires 0 < lost < 0xFFFF
    ensures (low + 0x1_0000_0000 * lost) % 0xFFFF != low % 0xFFFF
  {
    var q, r := low / 0xFFFF, low % 0xFFFF;
    assert low + 0x1_0000_0000 * lost == 0xFFFF * (q + 0x1_0001 * lost) + (r + lost);
    if r + lost >= 0xFFFF {
      assert low + 0x1_0000_0000 * lost == 0xFFFF * (q + 0x1_0001 * lost + 1) + (r + lost - 0xFFFF);
    }
  }

  lemma FinishExact(raw: u32, ones: u16)
    requires Congruent(raw, ones)
    ensures Finish(raw) == 0xFFFF - ones
  {
    FinishCongruent(raw);
    CongruentUnique(raw, ones, 0xFFFF - Finish(raw));
  }

  lemma FinishInexact(raw: nat, ones: u16)
    requires Congruent(raw, ones) && 0x1_0000_0000 <= raw < 0x1_0000_0000 * 0xFFFF
    ensures Finish(raw % 0x1_0000_0000) != 0xFFFF - ones
  {
    var low, lost := raw % 0x1_0000_0000, raw / 0x1_0000_0000;
    FinishCongruent(low);
    LostCarries(low, lost);
    assert raw == low + 0x1_0000_0000 * lost;
  }

  lemma FinishExactIff(raw: nat, ones: u16, len: nat)
    requires Congruent(raw, ones) && raw <= 0xFFFF * ((len + 1) / 2) && len < 0x8000_0000
    ensures Finish(raw % 0x1_0000_0000) == 0xFFFF - ones <==> raw < 0x1_0000_0000
  {
    if raw < 0x1_0000_0000 {
      assert raw % 0x1_0000_0000 == raw;
      FinishExact(raw, ones);
    } else {
      FinishInexact(raw, ones);
    }
  }

  /** The code computes the complement of the one's-complement sum exactly while the plain
      sum fits in 32 bits; a buffer of up to 131074 bytes always does. */
  lemma ChecksumExact(s: seq<u8>)
    requires |s| < 0x8000_0000
    ensures Checksum32(s) == 0xFFFF - OnesSum(s) <==> RawSum(s) < 0x1_0000_0000
    ensures |s| <= 131074 ==> RawSum(s) < 0x1_0000_0000
  {
    hide RawSum, OnesSum, Finish, Congruent;
    RawSumBound(s);
    OnesSumCongruent(s);
    FinishExactIff(RawSum(s), OnesSum(s), |s|);
  }

  /** `sum += w` on a 32-bit variable. */
  function Add32(sum: u32, w: nat): u32 {
    (sum + w) % 0x1_0000_0000
  }

  function Word(s: seq<u8>, at: nat): nat
    requires at + 2 <= |s|
  {
    s[at] as int + 0x100 * s[at + 1] as int
  }

  /** `sum` accounts for `s[..at]`: adding the rest of `s` gives the 32-bit sum of all of it. */
  ghost predicate Summed(s: seq<u8>, at: nat, sum: u32) {
    at <= |s| && (sum + RawSum(s[at..])) % 0x1_0000_0000 == RawSum(s) % 0x1_0000_0000
  }

  lemma SummedStart(s: seq<u8>)
    ensures Summed(s, 0, 0)
  {
    assert s[0..] == s;
  }

  lemma SummedWord(s: seq<u8>, at: nat, sum: u32)
    requires Summed(s, at, sum) && at + 2 <= |s|
    ensures Summed(s, at + 2, Add32(sum, Word(s, at)))
  {
    assert s[at..][2..] == s[at + 2..];
    Add32Adds(sum, Word(s, at), RawSum(s[at + 2..]));
  }

  lemma SummedByte(s: seq<u8>, at: nat, sum: u32)
    requires Summed(s, at, sum) && at + 1 == |s|
    ensures Summed(s, |s|, Add32(sum, s[at]))
  {
    Add32Adds(sum, s[at], 0);
  }

  lemma SummedEnd(s: seq<u8>, sum: u32)
    requires Summed(s, |s|, sum)
    ensures Finish(sum) == Checksum32(s)
  {
  }

  lemma Add32Adds(sum: u32, w: nat, rest: nat)
    ensures (Add32(sum, w) + rest) % 0x1_0000_0000 == (sum + w + rest) % 0x1_0000_0000
  {
  }

  /** `calc_checksum` of the NV store: two bytes at a time. */
  method CalcChecksum(dat: seq<u8>) returns (r: u16)
    ensures r == Checksum32(dat)
  {
    var chkSum: u32 := 0;
    var at, len := 0, |dat|;
    SummedStart(dat);
    while len > 1
      invariant 0 <= at && 0 <= len && at + len == |dat| && Summed(dat, at, chkSum)
    {
      SummedWord(dat, at, chkSum);
      chkSum := Add32(chkSum, Word(dat, at));
      at := at + 2;
      len := len - 2;
    }
    if len != 0 {
      SummedByte(dat, at, chkSum);
      chkSum := Add32(chkSum, dat[at]);
    }
    SummedEnd(dat, chkSum);
    r := FoldedComplement(chkSum);
  }

  /** `frm_chk`: two words at a time, then a `switch` on the one to three bytes left. */
  method FrmChk(src: seq<u8>) returns (r: u16)
    ensures r == Checksum32(src)
  {
    var sum: u32 := 0;
    var at, len := 0, |src|;
    SummedStart(src);
    while len > 3
      invariant 0 <= at && 0 <= len && at + len == |src| && Summed(src, at, sum)
    {
      SummedWord(src, at, sum);
      sum := Add32(sum, Word(src, at));
      SummedWord(src, at + 2, sum);
      sum := Add32(sum, Word(src, at + 2));
      at := at + 4;
      len := len - 4;
    }
    if len == 2 {
      SummedWord(src, at, sum);
      sum := Add32(sum, Word(src, at));
    } else if len == 3 {
      SummedWord(src, at, sum);
      sum := Add32(sum, Word(src, at));
      SummedByte(src, at + 2, sum);
      sum := Add32(sum, src[at + 2]);
    } else if len == 1 {
      SummedByte(src, at, sum);
      sum := Add32(sum, src[at]);
    }
    SummedEnd(src, sum);
    r := FoldedComplement(sum);
  }

  /** `boot_checksum`: a counted loop over the words, then the last byte. */
  method BootChecksum(src: seq<u8>) returns (r: u16)
    ensures r == Checksum32(src)
  {
    var sum: u32 := 0;
    var size1, size2 := |src| / 2, |src| % 2;
    var data := 0;
    SummedStart(src);
    if |src| != 0 {
      while size1 > 0
        invariant 0 <= size1 && 0 <= data && data + 2 * size1 + size2 == |src| && Summed(src, data, sum)
      {
        SummedWord(src, data, sum);
        sum := Add32(sum, Word(src, data));
        data, size1 := data + 2, size1 - 1;
      }
      if size2 != 0 {
        SummedByte(src, data, sum);
        sum := Add32(sum, src[|src| - 1]);
      }
    }
    SummedEnd(src, sum);
    r := FoldedComplement(sum);
  }

  /** The folding and complement at the end of all three. */
  method FoldedComplement(total: u32) returns (r: u16)
    ensures r == Finish(total)
  {
    var sum: u32 := total / 0x1_0000 + total % 0x1_0000;
    sum := sum + sum / 0x1_0000;
    r := 0xFFFF - sum % 0x1_0000;
  }
}
