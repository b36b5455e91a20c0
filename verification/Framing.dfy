/** Octet stuffing of diagnostic and boot frames (section 4.2 of RFC 1662), and its decoders. */
module Framing {
  import opened Words

  const FLAG: u8 := 0x7E
  const ESC: u8 := 0x7D

  /** `x ^ 0x20` */
  function Toggle(x: u8): u8 {
    if x / 0x20 % 2 == 1 then x - 0x20 else x + 0x20
  }

  predicate Special(x: u8) {
    x == FLAG || x == ESC
  }

  /** One byte of payload between the flags. */
  function Stuff1(x: u8): seq<u8> {
    if Special(x) then [ESC, Toggle(x)] else [x]
  }

  function Stuff(p: seq<u8>): seq<u8> {
    if p == [] then [] else Stuff1(p[0]) + Stuff(p[1..])
  }

  function Frame(p: seq<u8>): seq<u8> {
    [FLAG] + Stuff(p) + [FLAG]
  }

  lemma {:induction false} StuffAppend(a: seq<u8>, b: seq<u8>)
    ensures Stuff(a + b) == Stuff(a) + Stuff(b)
  {
    if a == [] {
      assert a + b == b;
    } else {
      assert (a + b)[1..] == a[1..] + b;
      StuffAppend(a[1..], b);
    }
  }

  lemma StuffSnoc(p: seq<u8>, i: nat)
    requires i < |p|
    ensures Stuff(p[..i + 1]) == Stuff(p[..i]) + Stuff1(p[i])
  {
    assert p[..i + 1] == p[..i] + [p[i]];
    StuffAppend(p[..i], [p[i]]);
    assert Stuff([p[i]]) == Stuff1(p[i]) + [];
  }

  lemma {:induction false} StuffLength(p: seq<u8>)
    ensures |p| <= |Stuff(p)| <= 2 * |p|
  {
    if p != [] { StuffLength(p[1..]); }
  }

  lemma StuffPrefix(p: seq<u8>, i: nat)
    requires i <= |p|
    ensures |Stuff(p[..i])| <= |Stuff(p)|
  {
    assert p == p[..i] + p[i..];
    StuffAppend(p[..i], p[i..]);
  }

  /** No flag occurs between the flags. */
  lemma {:induction false} StuffHasNoFlag(p: seq<u8>)
    ensures FLAG !in Stuff(p)
  {
    if p != [] { StuffHasNoFlag(p[1..]); }
  }

  /** `translate_packet` (the two copies are the same). */
  method TranslatePacket(dest: array<u8>, src: seq<u8>) returns (size: nat)
    requires dest.Length >= |Frame(src)|
    modifies dest
    ensures size == |Frame(src)| && dest[..size] == Frame(src)
    ensures forall k :: size <= k < dest.Length ==> dest[k] == old(dest[k])
  {
    hide Stuff, Frame;
    ghost var bound := |Frame(src)|;
    FrameParts(src);
    dest[0] := FLAG;
    size := 1;
    for i := 0 to |src|
      invariant 1 <= size < bound && dest[..size] == [FLAG] + Stuff(src[..i])
      invariant forall k :: bound <= k < dest.Length ==> dest[k] == old(dest[k])
    {
      StuffRoom(src, i, size);
      ghost var done := dest[..size];
      if src[i] == 0x7E {
        dest[size] := 0x7D;
        dest[size + 1] := 0x5E;
        size := size + 2;
        assert dest[..size] == done + [0x7D, 0x5E];
      } else if src[i] == 0x7D {
        dest[size] := 0x7D;
        dest[size + 1] := 0x5D;
        size := size + 2;
        assert dest[..size] == done + [0x7D, 0x5D];
      } else {
        dest[size] := src[i];
        size := size + 1;
        assert dest[..size] == done + [src[i]];
      }
    }
    assert src[..|src|] == src;
    dest[size] := FLAG;
    size := size + 1;
  }

  lemma FrameParts(src: seq<u8>)
    ensures Frame(src) == [FLAG] + Stuff(src) + [FLAG] && |Frame(src)| == |Stuff(src)| + 2
    ensures Stuff(src[..0]) == [] && [FLAG] + Stuff(src[..0]) == [FLAG]
  {
    assert src[..0] == [];
  }

  /** After the byte `src[i]`, and with room for the closing flag. */
  lemma StuffRoom(src: seq<u8>, i: nat, size: nat)
    requires i < |src| && size == |[FLAG] + Stuff(src[..i])|
    ensures [FLAG] + Stuff(src[..i + 1]) == [FLAG] + Stuff(src[..i]) + Stuff1(src[i])
    ensures size + |Stuff1(src[i])| <= |Stuff(src)| + 1
    ensures Stuff1(src[i]) == if src[i] == 0x7E then [0x7D, 0x5E] else if src[i] == 0x7D then [0x7D, 0x5D] else [src[i]]
  {
    hide Stuff;
    StuffSnoc(src, i);
    StuffPrefix(src, i + 1);
    assert [FLAG] + (Stuff(src[..i]) + Stuff1(src[i])) == [FLAG] + Stuff(src[..i]) + Stuff1(src[i]);
  }

  // ---- the two decoders -------------------------------------------------------------------

  /** The decoder's `status`, its `flag` and what it has stored; `done` once it has returned. */
  datatype Decoder = Decoder(status: nat, flag: bool, out: seq<u8>, done: bool)

  const READY: Decoder := Decoder(0, false, [], false)

  /** One byte through the decoder. `flagged` distinguishes `untranslate_packet_header`, which does not
      take a byte it has just unescaped for an escape, from `untranslate_packet`, which does.
      `limit` is `unpackSize`, -1 for none. */
  function Decode1(flagged: bool, limit: int, d: Decoder, c: u8): Decoder
    requires d.status == 2 ==> d.out != []
  {
    if d.done then d
    else if d.status == 0 then if c == FLAG then d.(status := 1) else d
    else if d.status == 1 then if c != FLAG then d.(status := 2, out := [c]) else d
    else if d.status != 2 then d
    else if c == FLAG then d.(done := true)
    else
      var n := |d.out| - 1;
      var d' :=
        if d.out[n] == ESC && !(flagged && d.flag) then
          d.(flag := true, out := if c == 0x5E then d.out[n := FLAG] else if c == 0x5D then d.out[n := ESC] else d.out)
        else d.(flag := false, out := d.out + [c]);
      if limit != -1 && |d'.out| >= limit + 1 then d'.(done := true) else d'
  }

  function Decode(flagged: bool, limit: int, d: Decoder, s: seq<u8>): (r: Decoder)
    requires d.status == 2 ==> d.out != []
    ensures r.status == 2 ==> r.out != []
    decreases |s|
  {
    if s == [] then d else Decode(flagged, limit, Decode1(flagged, limit, d, s[0]), s[1..])
  }

  lemma {:induction false} DecodeAppend(flagged: bool, limit: int, d: Decoder, a: seq<u8>, b: seq<u8>)
    requires d.status == 2 ==> d.out != []
    ensures Decode(flagged, limit, d, a + b) == Decode(flagged, limit, Decode(flagged, limit, d, a), b)
    decreases |a|
  {
    if a == [] {
      assert a + b == b;
    } else {
      assert (a + b)[1..] == a[1..] + b;
      DecodeAppend(flagged, limit, Decode1(flagged, limit, d, a[0]), a[1..], b);
    }
  }

  lemma {:induction false} DoneStays(flagged: bool, limit: int, d: Decoder, s: seq<u8>)
    requires (d.status == 2 ==> d.out != []) && d.done
    ensures Decode(flagged, limit, d, s) == d
    decreases |s|
  {
    if s != [] { DoneStays(flagged, limit, d, s[1..]); }
  }

  /** `untranslate_packet_header` (`flagged`) and `untranslate_packet` (not `flagged`, no limit). */
  method Untranslate(dest: array<u8>, src: seq<u8>, flagged: bool, unpackSize: int) returns (size: nat)
    requires dest.Length >= |src|
    modifies dest
    ensures size <= dest.Length && dest[..size] == Decode(flagged, unpackSize, READY, src).out
  {
    size := 0;
    var status, flag := 0, false;
    for i := 0 to |src|
      invariant size <= i && status <= 2 && (status == 2 <==> size > 0)
      invariant Decode(flagged, unpackSize, READY, src) ==
                Decode(flagged, unpackSize, Decoder(status, flag, dest[..size], false), src[i..])
    {
      ghost var now := Decoder(status, flag, dest[..size], false);
      assert src[i..][0] == src[i] && src[i..][1..] == src[i + 1..];
      if status == 0 {
        if src[i] == 0x7E { status := 1; }
      } else if status == 1 {
        if src[i] != 0x7E {
          status := 2;
          dest[size] := src[i];
          size := size + 1;
          assert dest[..size] == [src[i]];
        }
      } else {
        if src[i] == 0x7E {
          DoneStays(flagged, unpackSize, now.(done := true), src[i + 1..]);
          return;
        }
        if dest[size - 1] == 0x7D && !(flagged && flag) {
          flag := true;
          if src[i] == 0x5E {
            dest[size - 1] := 0x7E;
            assert dest[..size] == now.out[size - 1 := FLAG];
          } else if src[i] == 0x5D {
            dest[size - 1] := 0x7D;
            assert dest[..size] == now.out[size - 1 := ESC];
          }
        } else {
          flag := false;
          dest[size] := src[i];
          size := size + 1;
          assert dest[..size] == now.out + [src[i]];
        }
        if unpackSize != -1 && size >= unpackSize + 1 {
          DoneStays(flagged, unpackSize, Decoder(2, flag, dest[..size], true), src[i + 1..]);
          return;
        }
      }
    }
    assert src[|src|..] == [];
  }

  // ---- round trips ------------------------------------------------------------------------

  /** Inside a frame, and not waiting for the second byte of an escape. */
  predicate Settled(d: Decoder) {
    d.status == 2 && d.out != [] && !d.done && (d.out[|d.out| - 1] == ESC ==> d.flag)
  }

  /** The first byte of the payload. */
  lemma FirstByte(flagged: bool, limit: int, x: u8)
    requires limit == -1 || limit >= 1
    ensures Decode(flagged, limit, Decoder(1, false, [], false), Stuff1(x)) == Decoder(2, Special(x), [x], false)
  {
    var d := Decoder(1, false, [], false);
    if Special(x) {
      var d1 := Decode1(flagged, limit, d, ESC);
      assert d1 == Decoder(2, false, [ESC], false);
      var d2 := Decode1(flagged, limit, d1, Toggle(x));
      assert d2.out == [x];
      TwoBytes(flagged, limit, d, ESC, Toggle(x));
    } else {
      OneByte(flagged, limit, d, x);
    }
  }

  lemma OneByte(flagged: bool, limit: int, d: Decoder, x: u8)
    requires d.status == 2 ==> d.out != []
    ensures Decode(flagged, limit, d, [x]) == Decode1(flagged, limit, d, x)
  {
    assert [x][1..] == [];
  }

  lemma TwoBytes(flagged: bool, limit: int, d: Decoder, x: u8, y: u8)
    requires d.status == 2 ==> d.out != []
    ensures Decode(flagged, limit, d, [x, y]) == Decode1(flagged, limit, Decode1(flagged, limit, d, x), y)
  {
    assert [x, y][1..] == [y];
    OneByte(flagged, limit, Decode1(flagged, limit, d, x), y);
  }

  /** A further byte of the payload. */
  lemma NextByte(limit: int, d: Decoder, x: u8)
    requires Settled(d) && (limit == -1 || |d.out| <= limit)
    ensures var r := Decode(true, limit, d, Stuff1(x));
            if limit != -1 && |d.out| == limit then r.status == 2 && r.done && |r.out| == limit + 1 && r.out[..limit] == d.out
            else r == Decoder(2, Special(x), d.out + [x], false)
  {
    if Special(x) {
      var d1 := Decode1(true, limit, d, ESC);
      TwoBytes(true, limit, d, ESC, Toggle(x));
      if limit == -1 || |d.out| < limit {
        assert d1 == Decoder(2, false, d.out + [ESC], false);
        assert (d.out + [ESC])[|d.out| := x] == d.out + [x];
      }
    } else {
      OneByte(true, limit, d, x);
    }
  }

  lemma {:induction false} FurtherBytes(limit: int, d: Decoder, p: seq<u8>)
    requires Settled(d) && (limit == -1 || |d.out| <= limit)
    ensures var r := Decode(true, limit, d, Stuff(p));
            if limit != -1 && |d.out + p| > limit then r.status == 2 && r.done && |r.out| == limit + 1 && r.out[..limit] == (d.out + p)[..limit]
            else Settled(r) && r.out == d.out + p
    decreases |p|
  {
    hide Decode, Decode1, Stuff1;
    if p == [] {
      assert d.out + p == d.out;
      NoBytes(true, limit, d);
    } else {
      var d' := Decode(true, limit, d, Stuff1(p[0]));
      NextByte(limit, d, p[0]);
      DecodeAppend(true, limit, d, Stuff1(p[0]), Stuff(p[1..]));
      if limit != -1 && |d.out| == limit {
        DoneStays(true, limit, d', Stuff(p[1..]));
      } else {
        FurtherBytes(limit, d', p[1..]);
        assert d'.out + p[1..] == d.out + p;
      }
    }
  }

  lemma NoBytes(flagged: bool, limit: int, d: Decoder)
    requires d.status == 2 ==> d.out != []
    ensures Decode(flagged, limit, d, []) == d
  {
  }

  /** Whatever precedes the opening flag is skipped. */
  lemma {:induction false} SkipNoise(flagged: bool, limit: int, noise: seq<u8>)
    requires FLAG !in noise
    ensures Decode(flagged, limit, READY, noise + [FLAG]) == Decoder(1, false, [], false)
  {
    if noise == [] {
      assert noise + [FLAG] == [FLAG];
      OneByte(flagged, limit, READY, FLAG);
    } else {
      assert (noise + [FLAG])[0] == noise[0] && (noise + [FLAG])[1..] == noise[1..] + [FLAG];
      SkipNoise(flagged, limit, noise[1..]);
    }
  }

  lemma FrameFromFirst(noise: seq<u8>, p: seq<u8>, rest: seq<u8>)
    requires p != []
    ensures noise + Frame(p) + rest == (noise + [FLAG]) + (Stuff1(p[0]) + (Stuff(p[1..]) + ([FLAG] + rest)))
  {
  }

  /** A whole frame, from its opening flag on, with the payload split at its first byte. */
  lemma FrameSplit(flagged: bool, limit: int, noise: seq<u8>, p: seq<u8>, rest: seq<u8>)
    requires FLAG !in noise && p != [] && (limit == -1 || limit >= 1)
    ensures Decode(flagged, limit, READY, noise + Frame(p) + rest)
              == Decode(flagged, limit, Decode(flagged, limit, Decoder(2, Special(p[0]), [p[0]], false), Stuff(p[1..])), [FLAG] + rest)
  {
    hide Decode, Decode1, Stuff, Stuff1, Frame;
    var start := Decoder(1, false, [], false);
    SkipNoise(flagged, limit, noise);
    FirstByte(flagged, limit, p[0]);
    FrameFromFirst(noise, p, rest);
    DecodeAppend(flagged, limit, READY, noise + [FLAG], Stuff1(p[0]) + (Stuff(p[1..]) + ([FLAG] + rest)));
    DecodeAppend(flagged, limit, start, Stuff1(p[0]), Stuff(p[1..]) + ([FLAG] + rest));
    DecodeAppend(flagged, limit, Decoder(2, Special(p[0]), [p[0]], false), Stuff(p[1..]), [FLAG] + rest);
  }

  lemma ClosingFlag(flagged: bool, limit: int, d: Decoder, rest: seq<u8>)
    requires d.status == 2 && d.out != []
    ensures Decode(flagged, limit, d, [FLAG] + rest) == d.(done := true)
  {
    assert ([FLAG] + rest)[1..] == rest;
    DoneStays(flagged, limit, d.(done := true), rest);
  }

  /** `untranslate_packet_header` returns every non-empty payload given to `translate_packet`, whatever
      precedes and follows the frame; with a limit of `n` bytes, a longer payload's first `n` bytes. */
  lemma FlaggedRoundTrip(limit: int, noise: seq<u8>, p: seq<u8>, rest: seq<u8>)
    requires FLAG !in noise && p != [] && (limit == -1 || limit >= 1)
    ensures var r := Decode(true, limit, READY, noise + Frame(p) + rest);
            && r.done
            && (limit == -1 || |p| <= limit ==> r.out == p)
            && (limit != -1 && |p| > limit ==> |r.out| == limit + 1 && r.out[..limit] == p[..limit])
  {
    hide Decode, Stuff, Decode1;
    var d := Decoder(2, Special(p[0]), [p[0]], false);
    FrameSplit(true, limit, noise, p, rest);
    FurtherBytes(limit, d, p[1..]);
    assert [p[0]] + p[1..] == p;
    ClosingFlag(true, limit, Decode(true, limit, d, Stuff(p[1..])), rest);
  }

  /** The empty payload decodes to nothing. */
  lemma EmptyRoundTrip(flagged: bool, limit: int)
    ensures Decode(flagged, limit, READY, Frame([])).out == []
  {
    assert Frame([]) == [FLAG, FLAG];
    TwoBytes(flagged, limit, READY, FLAG, FLAG);
  }

  // ---- the decoder without the flag -------------------------------------------------------

  /** Inside a frame; `Stuck` when the last byte stored is 0x7D, unescaped or not. */
  predicate Inside(d: Decoder) {
    d.status == 2 && d.out != [] && !d.done
  }

  predicate Stuck(d: Decoder)
    requires Inside(d)
  {
    d.out[|d.out| - 1] == ESC
  }

  /** One payload byte through `untranslate_packet`: a stuck decoder stores nothing new. */
  lemma PlainByte(d: Decoder, x: u8)
    requires Inside(d)
    ensures var r := Decode(false, -1, d, Stuff1(x));
            && Inside(r)
            && (!Stuck(d) ==> r.out == d.out + [x])
            && (Stuck(d) ==> |r.out| == |d.out|)
  {
    if Special(x) {
      TwoBytes(false, -1, d, ESC, Toggle(x));
      var d1 := Decode1(false, -1, d, ESC);
      if !Stuck(d) {
        assert d1.out == d.out + [ESC];
        assert (d.out + [ESC])[|d.out| := x] == d.out + [x];
      }
    } else {
      OneByte(false, -1, d, x);
    }
  }

  /** 0x7D occurs in `p` at most as its last byte. */
  predicate EscapeOnlyLast(p: seq<u8>) {
    forall i :: 0 <= i < |p| - 1 ==> p[i] != ESC
  }

  lemma EscapeOnlyLastTail(p: seq<u8>)
    requires p != []
    ensures EscapeOnlyLast(p) <==> (|p| > 1 ==> p[0] != ESC) && EscapeOnlyLast(p[1..])
  {
    if !EscapeOnlyLast(p) {
      var i :| 0 <= i < |p| - 1 && p[i] == ESC;
      if i > 0 { assert p[1..][i - 1] == ESC; }
    }
    if !EscapeOnlyLast(p[1..]) {
      var i :| 0 <= i < |p[1..]| - 1 && p[1..][i] == ESC;
      assert p[i + 1] == ESC;
    }
  }

  lemma {:induction false} PlainBytes(d: Decoder, p: seq<u8>)
    requires Inside(d)
    ensures var r := Decode(false, -1, d, Stuff(p));
            && Inside(r) && |r.out| <= |d.out| + |p| && (p == [] ==> r == d)
            && (!Stuck(d) && EscapeOnlyLast(p) ==> r.out == d.out + p)
            && (Stuck(d) && p != [] ==> |r.out| < |d.out| + |p|)
            && (!EscapeOnlyLast(p) ==> |r.out| < |d.out| + |p|)
    decreases |p|
  {
    hide Decode1, Stuff1, EscapeOnlyLast;
    if p == [] {
      assert d.out + p == d.out;
      EscapeFree();
    } else {
      var d' := Decode(false, -1, d, Stuff1(p[0]));
      PlainByte(d, p[0]);
      DecodeAppend(false, -1, d, Stuff1(p[0]), Stuff(p[1..]));
      PlainBytes(d', p[1..]);
      EscapeOnlyLastTail(p);
      assert d.out + [p[0]] + p[1..] == d.out + p;
    }
  }

  lemma EscapeFree()
    ensures EscapeOnlyLast([])
  {
  }

  /** `untranslate_packet` returns the payload given to `translate_packet` exactly when 0x7D occurs in
      it at most as the last byte: after an unescaped 0x7D it takes the next byte for an escape. */
  lemma UnflaggedRoundTrip(noise: seq<u8>, p: seq<u8>, rest: seq<u8>)
    requires FLAG !in noise && p != []
    ensures Decode(false, -1, READY, noise + Frame(p) + rest).out == p <==> EscapeOnlyLast(p)
  {
    hide Decode, Stuff, Decode1;
    var d := Decoder(2, Special(p[0]), [p[0]], false);
    FrameSplit(false, -1, noise, p, rest);
    PlainBytes(d, p[1..]);
    assert [p[0]] + p[1..] == p;
    ClosingFlag(false, -1, Decode(false, -1, d, Stuff(p[1..])), rest);
    EscapeOnlyLastTail(p);
  }
}
