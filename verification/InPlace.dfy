/** In-place stuffing and unstuffing of a byte buffer. */
module InPlace {
  import opened Words
  import opened Framing

  /** How many bytes of `p` need an escape. */
  function Specials(p: seq<u8>): nat {
    if p == [] then 0 else (if Special(p[0]) then 1 else 0) + Specials(p[1..])
  }

  lemma {:induction false} StuffGrows(p: seq<u8>)
    ensures |Stuff(p)| == |p| + Specials(p)
  {
    if p != [] { StuffGrows(p[1..]); }
  }

  /** `s` with the two bytes `a` and `b` in the place of the byte at `i`. */
  function Widened(s: seq<u8>, i: nat, a: u8, b: u8): seq<u8>
    requires i < |s|
  {
    s[..i] + [a, b] + s[i + 1..]
  }

  /** The shifting loop of `eng_diag_encode7d7e`: the byte at `i` becomes two. */
  method Widen(buf: array<u8>, i: nat, len: nat, a: u8, b: u8)
    requires i < len < buf.Length
    modifies buf
    ensures buf[..len + 1] == Widened(old(buf[..len]), i, a, b)
    ensures forall k :: len < k < buf.Length ==> buf[k] == old(buf[k])
  {
    hide Widened;
    ghost var s := buf[..len];
    buf[i] := a;
    var j := len;
    while j > i + 1
      invariant i + 1 <= j <= len
      invariant buf[i] == a && forall k :: 0 <= k < j && k != i ==> buf[k] == old(buf[k])
      invariant forall k :: j < k <= len ==> buf[k] == old(buf[k - 1])
      invariant forall k :: len < k < buf.Length ==> buf[k] == old(buf[k])
    {
      buf[j] := buf[j - 1];
      j := j - 1;
    }
    buf[i + 1] := b;
    WidenedIs(s, buf[..len + 1], i, a, b);
  }

  lemma WidenedIs(s: seq<u8>, t: seq<u8>, i: nat, a: u8, b: u8)
    requires i < |s| && |t| == |s| + 1 && t[i] == a && t[i + 1] == b
    requires forall k :: 0 <= k < i ==> t[k] == s[k]
    requires forall k :: i + 1 < k < |t| ==> t[k] == s[k - 1]
    ensures t == Widened(s, i, a, b)
  {
  }

  /** `s` is `src` with its first `k` bytes stuffed; `i` is behind them, or, when `mid`, at the second
      byte of the last escape. */
  ghost predicate Halfway(src: seq<u8>, s: seq<u8>, i: nat, k: nat, mid: bool) {
    && k <= |src| && s == Stuff(src[..k]) + src[k..]
    && i == |Stuff(src[..k])| - (if mid then 1 else 0)
    && (mid ==> k > 0 && Special(src[k - 1]))
  }

  lemma HalfwayStart(src: seq<u8>)
    ensures Halfway(src, src, 0, 0, false)
  {
    assert src[..0] == [] && src[0..] == src;
  }

  lemma SecondByte(src: seq<u8>, k: nat)
    requires 0 < k <= |src| && Special(src[k - 1])
    ensures |Stuff(src[..k])| > 0 && Stuff(src[..k])[|Stuff(src[..k])| - 1] == Toggle(src[k - 1])
    ensures !Special(Toggle(src[k - 1]))
  {
    StuffSnoc(src, k - 1);
  }

  lemma PassPlain(src: seq<u8>, s: seq<u8>, i: nat, k: nat, mid: bool)
    requires Halfway(src, s, i, k, mid) && i < |s| && !Special(s[i])
    ensures Halfway(src, s, i + 1, if mid then k else k + 1, false)
  {
    hide Stuff;
    if !mid {
      assert s[i] == src[k];
      StuffSnoc(src, k);
      assert Stuff(src[..k]) + [src[k]] + src[k + 1..] == Stuff(src[..k]) + src[k..];
    }
  }

  lemma PassEscape(src: seq<u8>, s: seq<u8>, i: nat, k: nat, mid: bool)
    requires Halfway(src, s, i, k, mid) && i < |s| && Special(s[i])
    ensures !mid && Halfway(src, Widened(s, i, ESC, Toggle(s[i])), i + 1, k + 1, true)
    ensures |s| + 1 <= |Stuff(src)|
  {
    hide Stuff;
    if mid { SecondByte(src, k); }
    assert s[i] == src[k];
    StuffSnoc(src, k);
    assert s[..i] == Stuff(src[..k]) && s[i + 1..] == src[k + 1..];
    assert src == src[..k + 1] + src[k + 1..];
    StuffAppend(src[..k + 1], src[k + 1..]);
    StuffLength(src[k + 1..]);
  }

  lemma PassedAll(src: seq<u8>, s: seq<u8>, k: nat, mid: bool)
    requires Halfway(src, s, |s|, k, mid)
    ensures s == Stuff(src)
  {
    assert k == |src|;
    assert src[..k] == src && src[k..] == [];
  }

  /** `eng_diag_encode7d7e` */
  method Encode7d7e(buf: array<u8>, size: nat, extraLen: int) returns (len: nat, extra: int)
    requires size <= buf.Length && |Stuff(buf[..size])| <= buf.Length
    modifies buf
    ensures len == |Stuff(old(buf[..size]))| && buf[..len] == Stuff(old(buf[..size]))
    ensures extra == extraLen + Specials(old(buf[..size]))
    ensures forall k :: len <= k < buf.Length ==> buf[k] == old(buf[k])
  {
    hide Halfway, Stuff, Toggle, Widened;
    ghost var src := buf[..size];
    len, extra := size, extraLen;
    var i := 0;
    ghost var k, mid := 0, false;
    HalfwayStart(src);
    while i < len
      invariant i <= len <= buf.Length && Halfway(src, buf[..len], i, k, mid)
      invariant extra == extraLen + (len - size)
      invariant forall x :: len <= x < buf.Length ==> buf[x] == old(buf[x])
      decreases 2 * |src| - 2 * k + (if mid then 1 else 0)
    {
      ghost var now := buf[..len];
      assert now[i] == buf[i];
      Bounded(src, now, i, k, mid);
      if buf[i] == 0x7D || buf[i] == 0x7E {
        PassEscape(src, now, i, k, mid);
        var tmp := Toggle(buf[i]);
        Widen(buf, i, len, 0x7D, tmp);
        len := len + 1;
        extra := extra + 1;
        k, mid := k + 1, true;
      } else {
        PassPlain(src, now, i, k, mid);
        k, mid := if mid then k else k + 1, false;
      }
      i := i + 1;
    }
    PassedAll(src, buf[..len], k, mid);
    StuffGrows(src);
  }

  lemma Bounded(src: seq<u8>, s: seq<u8>, i: nat, k: nat, mid: bool)
    requires Halfway(src, s, i, k, mid) && i < |s|
    ensures k <= |src| && (k == |src| ==> mid)
  {
  }

  // ---- decoding ---------------------------------------------------------------------------

  /** What `eng_diag_decode7d7e` makes of the bytes `s`, `z` being the byte behind them in the buffer:
      a special byte takes the next one, toggled. */
  function Unstuff(s: seq<u8>, z: u8): seq<u8>
    decreases |s|
  {
    if s == [] then []
    else if !Special(s[0]) then [s[0]] + Unstuff(s[1..], z)
    else if |s| == 1 then [Toggle(z)]
    else [Toggle(s[1])] + Unstuff(s[2..], z)
  }

  /** The `memcpy` of `eng_diag_decode7d7e`, which moves the bytes behind `j` down by one. */
  method CloseGap(buf: array<u8>, j: nat, len: nat)
    requires j <= len < buf.Length
    modifies buf
    ensures forall k :: 0 <= k < buf.Length ==> buf[k] == if j <= k < len then old(buf[k + 1]) else old(buf[k])
  {
    for k := j to len
      invariant forall x :: 0 <= x < buf.Length ==> buf[x] == if j <= x < k then old(buf[x + 1]) else old(buf[x])
    {
      buf[k] := buf[k + 1];
    }
  }

  function Repeat(x: u8, n: nat): (s: seq<u8>)
    ensures |s| == n && forall k :: 0 <= k < n ==> s[k] == x
  {
    if n == 0 then [] else [x] + Repeat(x, n - 1)
  }

  lemma {:induction false} UnstuffShrinks(s: seq<u8>, z: u8)
    ensures |Unstuff(s, z)| <= |s|
    decreases |s|
  {
    if |s| >= 2 && Special(s[0]) {
      UnstuffShrinks(s[2..], z);
    } else if s != [] {
      UnstuffShrinks(s[1..], z);
    }
  }

  /** The bytes `s` after `eng_diag_decode7d7e`: unstuffed, and at their end filled with the byte behind. */
  function Decoded(s: seq<u8>, z: u8): (r: seq<u8>)
    ensures |r| == |s|
  {
    UnstuffShrinks(s, z);
    var u := Unstuff(s, z);
    u + Repeat(z, |s| - |u|)
  }

  /** The buffer `b`, of which `size` bytes are decoded, with `i` bytes done and the bytes up to `len`
      still to come. */
  ghost predicate Partly(b: seq<u8>, i: nat, len: nat, size: nat, z: u8, u: seq<u8>) {
    && len <= size < |b| && i <= len + 1
    && (i <= len ==> b[..i] + Unstuff(b[i..len], z) == u)
    && (i > len ==> b[..i] == u)
    && (forall k :: len <= k <= size && i <= k ==> b[k] == z)
  }

  lemma PartlyStart(b: seq<u8>, size: nat)
    requires size < |b|
    ensures Partly(b, 0, size, size, b[size], Unstuff(b[..size], b[size]))
  {
    assert b[0..size] == b[..size] && b[..0] == [];
  }

  lemma DecodePlain(b: seq<u8>, i: nat, len: nat, size: nat, z: u8, u: seq<u8>)
    requires Partly(b, i, len, size, z, u) && i < len && !Special(b[i])
    ensures Partly(b, i + 1, len, size, z, u)
  {
    assert b[i..len][1..] == b[i + 1..len];
    assert b[..i + 1] == b[..i] + [b[i]];
  }

  lemma DecodeEscape(b: seq<u8>, b': seq<u8>, i: nat, len: nat, size: nat, z: u8, u: seq<u8>)
    requires Partly(b, i, len, size, z, u) && i < len && Special(b[i]) && |b'| == |b|
    requires b'[i] == Toggle(b[i + 1])
    requires forall k :: 0 <= k < i || len <= k < |b| ==> b'[k] == b[k]
    requires forall k :: i < k < len ==> b'[k] == b[k + 1]
    ensures Partly(b', i + 1, len - 1, size, z, u)
  {
    hide Toggle;
    assert b'[..i + 1] == b[..i] + [Toggle(b[i + 1])];
    if i + 1 < len {
      assert b[i..len][1] == b[i + 1] && b[i..len][2..] == b[i + 2..len];
      assert b'[i + 1..len - 1] == b[i + 2..len];
    }
  }

  lemma DecodedAll(b: seq<u8>, i: nat, len: nat, size: nat, z: u8, s: seq<u8>)
    requires Partly(b, i, len, size, z, Unstuff(s, z)) && i >= len && |s| == size && b[size] == z
    ensures b[..size] == Decoded(s, z)
  {
    hide Unstuff;
    UnstuffShrinks(s, z);
    var u := Unstuff(s, z);
    if i == len {
      UnstuffNothing(b[i..len], z);
      assert b[..i] + [] == b[..i];
    }
    assert |u| == i;
    assert b[..size] == b[..i] + b[i..size];
  }

  lemma UnstuffNothing(s: seq<u8>, z: u8)
    requires s == []
    ensures Unstuff(s, z) == []
  {
  }

  /** One escape of the loop: the byte behind it is toggled in its place, and the rest moves down. */
  method Squeeze(buf: array<u8>, at: nat, i: nat, len: nat)
    requires i < len && at + len < buf.Length
    modifies buf
    ensures buf[at + i] == Toggle(old(buf[at + i + 1]))
    ensures forall k :: 0 <= k < at + i || at + len <= k < buf.Length ==> buf[k] == old(buf[k])
    ensures forall k :: at + i < k < at + len ==> buf[k] == old(buf[k + 1])
  {
    hide Toggle;
    buf[at + i] := Toggle(buf[at + i + 1]);
    CloseGap(buf, at + i + 1, at + len);
  }

  /** `eng_diag_decode7d7e` on the `size` bytes behind `at`. */
  method Decode7d7e(buf: array<u8>, at: nat, size: nat)
    requires at + size < buf.Length
    modifies buf
    ensures buf[at..at + size] == Decoded(old(buf[at..at + size]), old(buf[at + size]))
    ensures forall k :: 0 <= k < buf.Length && !(at <= k < at + size) ==> buf[k] == old(buf[k])
  {
    hide Unstuff, Toggle, Partly, Decoded;
    ghost var z, s := buf[at + size], buf[at..at + size];
    var i, len := 0, size;
    assert buf[at..][..size] == s;
    PartlyStart(buf[at..], size);
    while i < len
      invariant 0 <= i <= size && 0 <= len <= size && i <= len + 1
      invariant Partly(buf[at..], i, len, size, z, Unstuff(s, z))
      invariant forall k :: 0 <= k < buf.Length && !(at <= k < at + size) ==> buf[k] == old(buf[k])
      decreases len + 1 - i
    {
      ghost var now := buf[at..];
      if buf[at + i] == 0x7D || buf[at + i] == 0x7E {
        Squeeze(buf, at, i, len);
        DecodeEscape(now, buf[at..], i, len, size, z, Unstuff(s, z));
        len := len - 1;
      } else {
        DecodePlain(now, i, len, size, z, Unstuff(s, z));
      }
      i := i + 1;
    }
    DecodedAll(buf[at..], i, len, size, z, s);
    assert buf[at..][..size] == buf[at..at + size];
  }

  lemma UnstuffStep(x: u8, t: seq<u8>, z: u8)
    ensures Unstuff(Stuff1(x) + t, z) == [x] + Unstuff(t, z)
  {
    var s := Stuff1(x) + t;
    if Special(x) {
      assert s[2..] == t;
      assert Toggle(Toggle(x)) == x;
    } else {
      assert s[1..] == t;
    }
  }

  /** Unstuffing inverts stuffing; a closing flag behind it decodes to one more byte. */
  lemma {:induction false} UnstuffInverts(p: seq<u8>, z: u8)
    ensures Unstuff(Stuff(p), z) == p
    ensures Unstuff(Stuff(p) + [FLAG], z) == p + [Toggle(z)]
  {
    hide Stuff1, Toggle;
    if p == [] {
      assert Stuff(p) + [FLAG] == [FLAG];
    } else {
      UnstuffInverts(p[1..], z);
      var t := Stuff(p[1..]);
      UnstuffStep(p[0], t, z);
      UnstuffStep(p[0], t + [FLAG], z);
      assert Stuff1(p[0]) + t + [FLAG] == Stuff1(p[0]) + (t + [FLAG]);
    }
  }

  /** Encoding in place and decoding in place restores the bytes. */
  method EncodeThenDecode(buf: array<u8>, size: nat)
    requires size <= buf.Length && |Stuff(buf[..size])| < buf.Length
    modifies buf
    ensures buf[..size] == old(buf[..size])
  {
    ghost var p := buf[..size];
    var len, _ := Encode7d7e(buf, size, 0);
    ghost var z := buf[len];
    UnstuffInverts(p, z);
    StuffLength(p);
    assert buf[0..len] == Stuff(p);
    Decode7d7e(buf, 0, len);
    hide Unstuff, Stuff;
    assert Decoded(Stuff(p), z)[..size] == p;
    assert buf[0..len][..size] == buf[..size];
  }

  // ---- what decoding changes -----------------------------------------------------------------

  predicate NoSpecial(s: seq<u8>) {
    forall k :: 0 <= k < |s| ==> !Special(s[k])
  }

  lemma {:induction false} UnstuffPlain(s: seq<u8>, z: u8)
    requires NoSpecial(s)
    ensures Unstuff(s, z) == s && Decoded(s, z) == s
  {
    if s != [] {
      UnstuffPlain(s[1..], z);
    }
    assert s + Repeat(z, 0) == s;
  }

  lemma DecodedPlain(x: u8, s: seq<u8>, z: u8)
    requires !Special(x)
    ensures Decoded([x] + s, z) == [x] + Decoded(s, z)
  {
    UnstuffShrinks(s, z);
    assert ([x] + s)[1..] == s;
    assert [x] + Unstuff(s, z) + Repeat(z, |s| - |Unstuff(s, z)|) == [x] + Decoded(s, z);
  }

  lemma DecodedPair(x: u8, s: seq<u8>, z: u8)
    ensures Decoded([ESC, x] + s, z) == [Toggle(x)] + Decoded(s, z) + [z]
  {
    hide Toggle;
    var t, u := [ESC, x] + s, Unstuff(s, z);
    assert t[2..] == s && t[1] == x;
    UnstuffShrinks(s, z);
    assert Unstuff(t, z) == [Toggle(x)] + u;
    assert Repeat(z, |s| - |u| + 1) == Repeat(z, |s| - |u|) + [z];
  }

  lemma StuffCons(p: seq<u8>)
    requires p != []
    ensures Stuff(p) == (if Special(p[0]) then [ESC, Toggle(p[0])] else [p[0]]) + Stuff(p[1..])
  {
    hide Toggle;
  }

  /** A beginning of the stuffed bytes: behind a plain byte, of an escape alone, and behind an escape. */
  lemma PlainPrefix(p: seq<u8>, n: nat)
    requires p != [] && 0 < n <= |Stuff(p)| && !Special(p[0])
    ensures |Stuff(p[1..])| >= n - 1 && Stuff(p)[..n] == [p[0]] + Stuff(p[1..])[..n - 1]
  {
    hide Stuff;
    StuffCons(p);
    var t := Stuff(p[1..]);
    assert ([p[0]] + t)[..n] == [p[0]] + t[..n - 1];
  }

  lemma EscapeAlone(p: seq<u8>)
    requires p != [] && Special(p[0])
    ensures |Stuff(p)| >= 2 && Stuff(p)[..1] == [ESC]
  {
    hide Stuff, Toggle;
    StuffCons(p);
  }

  lemma EscapePrefix(p: seq<u8>, n: nat)
    requires p != [] && 1 < n <= |Stuff(p)| && Special(p[0])
    ensures |Stuff(p[1..])| >= n - 2 && Stuff(p)[..n] == [ESC, Toggle(p[0])] + Stuff(p[1..])[..n - 2]
  {
    hide Stuff, Toggle;
    StuffCons(p);
    var pair, t := [ESC, Toggle(p[0])], Stuff(p[1..]);
    assert (pair + t)[..n] == pair + t[..n - 2];
  }

  lemma StuffPrefixSplits(p: seq<u8>, n: nat)
    requires p != [] && 0 < n <= |Stuff(p)|
    ensures !Special(p[0]) ==> |Stuff(p[1..])| >= n - 1 && Stuff(p)[..n] == [p[0]] + Stuff(p[1..])[..n - 1]
    ensures Special(p[0]) && n == 1 ==> Stuff(p)[..n] == [ESC]
    ensures Special(p[0]) && n > 1 ==>
              |Stuff(p[1..])| >= n - 2 && Stuff(p)[..n] == [ESC, Toggle(p[0])] + Stuff(p[1..])[..n - 2]
  {
    hide Stuff, Toggle;
    if !Special(p[0]) {
      PlainPrefix(p, n);
    } else if n == 1 {
      EscapeAlone(p);
    } else {
      EscapePrefix(p, n);
    }
  }

  lemma DecodedAlone()
    ensures Decoded([ESC], 0) == [0x20] && Decoded([], 0) == []
  {
    assert Unstuff([ESC], 0) == [0x20];
  }

  lemma ToggledTwice(x: u8)
    ensures Toggle(Toggle(x)) == x && Toggle(ESC) == 0x5D
  {
  }

  /** A beginning of a stuffed payload, decoded with a zero behind it, is not the same moved up by one. */
  lemma {:induction false} NotMovedUp(p: seq<u8>, n: nat)
    requires n <= |Stuff(p)|
    ensures Decoded(Stuff(p)[..n], 0) + [0] != [0x5D] + Stuff(p)[..n]
    decreases |p|
  {
    hide Stuff, Decoded, Toggle;
    var s := Stuff(p)[..n];
    var moved := Decoded(s, 0) + [0];
    if n == 0 {
      assert moved[0] == 0;
    } else {
      StuffNonEmpty(p);
      StuffPrefixSplits(p, n);
      DecodedAlone();
      if !Special(p[0]) {
        var t := Stuff(p[1..])[..n - 1];
        DecodedPlain(p[0], t, 0);
        NotMovedUp(p[1..], n - 1);
        assert moved[0] == p[0] && moved[1..] == Decoded(t, 0) + [0];
        assert ([0x5D] + s)[1..] == [p[0]] + t;
      } else if n == 1 {
        assert moved[0] == 0x20;
      } else {
        DecodedPair(Toggle(p[0]), Stuff(p[1..])[..n - 2], 0);
        ToggledTwice(p[0]);
        assert moved[0] == p[0];
      }
    }
  }

  lemma StuffNonEmpty(p: seq<u8>)
    requires Stuff(p) != []
    ensures p != []
  {
  }

  /** Decoding a beginning of a stuffed payload leaves it alone exactly if it holds no escape. */
  lemma {:induction false} DecodedSameIff(p: seq<u8>, n: nat)
    requires n <= |Stuff(p)|
    ensures Decoded(Stuff(p)[..n], 0) == Stuff(p)[..n] <==> NoSpecial(Stuff(p)[..n])
    decreases |p|
  {
    hide Stuff, Decoded, Toggle;
    var s := Stuff(p)[..n];
    if NoSpecial(s) {
      UnstuffPlain(s, 0);
    } else {
      StuffNonEmpty(p);
      StuffPrefixSplits(p, n);
      DecodedAlone();
      if !Special(p[0]) {
        var t := Stuff(p[1..])[..n - 1];
        DecodedPlain(p[0], t, 0);
        DecodedSameIff(p[1..], n - 1);
        assert s[1..] == t && Decoded(s, 0)[1..] == Decoded(t, 0);
        assert forall k :: 0 < k < |s| ==> s[k] == t[k - 1];
      } else if n == 1 {
        assert Decoded(s, 0)[0] == 0x20;
      } else {
        var t := Stuff(p[1..])[..n - 2];
        DecodedPair(Toggle(p[0]), t, 0);
        ToggledTwice(p[0]);
        assert Decoded(s, 0)[0] == p[0];
        NotMovedUp(p[1..], n - 2);
        assert Decoded(s, 0)[1..] == Decoded(t, 0) + [0] && s[1..] == [Toggle(p[0])] + t;
      }
    }
  }
}
