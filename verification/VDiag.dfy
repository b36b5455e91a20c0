/** The diagnostic receiver: frames reassembled from reads of any size. */
module VDiag {
  import opened Words
  import opened Framing
  import InPlace

  const EXT_SIZE: nat := 16384

  /** What `get_user_diag_buf` keeps, and whether it has just completed a frame. */
  datatype Fed = Fed(ext: seq<u8>, found: bool)

  /** One byte of `get_user_diag_buf`. */
  function Feed1(ext: seq<u8>, c: u8): Fed {
    if c == FLAG && ext == [] then Fed([c], false)
    else if 0 < |ext| < EXT_SIZE then Fed(ext + [c], c == FLAG)
    else Fed(ext, false)
  }

  /** `get_user_diag_buf`: bytes up to the end of a frame, or all of them. */
  function Feed(ext: seq<u8>, buf: seq<u8>): (r: Fed)
    decreases |buf|
  {
    if buf == [] then Fed(ext, false)
    else
      var one := Feed1(ext, buf[0]);
      if one.found then one else Feed(one.ext, buf[1..])
  }

  datatype Action =
    | Deliver(frame: seq<u8>)     // a complete frame is handed to `eng_diag`
    | Forward(data: seq<u8>)      // the data goes to the modem
    | Hold                        // a frame is under way

  datatype Receiver = Receiver(ext: seq<u8>, toAp: bool)

  const EMPTY: Receiver := Receiver([], true)

  /** Who handles a diagnostic command, as far as its type and subtype say. */
  datatype Answer = ToModem | ToAp | ByContent

  /** The switch of `eng_diag_parse`. */
  function HeaderAnswer(kind: u8, subtype: u8): Answer {
    if kind == 0x0C then if subtype == 8 then ToAp else ToModem                             // change mode
    else if kind == 0x0D then                                                                // factory mode
      if subtype == 7 || 2 <= subtype <= 4 || subtype == 0x1A then ToAp else ToModem
    else if kind in {0x5F, 0x0F, 0x1E, 0x62, 0x38} then ToAp    // PHS check, ADC, voltage, AP calibration, autotest
    else if kind == 0x68 || kind == 0x5E then ByContent                                      // AT, IMEI and addresses
    else if kind == 0x00 then if subtype == 2 then ToAp else ToModem                         // version
    else if kind == 0x11 then if subtype == 2 || subtype == 0x0E then ToAp else ToModem      // current test
    else ToModem
  }

  /** What lies outside of the model: the answer for commands that are judged by their content, and the
      byte that happens to lie behind the buffer. */
  datatype Diag = Diag(content: seq<u8> -> bool, beyond: u8)

  /** `eng_diag_parse` on a decoded buffer: the command is one for the modem. */
  predicate Common(diag: Diag, buf: seq<u8>)
    requires |buf| >= 9
  {
    match HeaderAnswer(buf[7], buf[8])
    case ToModem => true
    case ToAp => false
    case ByContent => diag.content(buf)
  }

  /** The buffer after `eng_diag_parse`, which decodes it in place behind the opening flag; what lies behind
      the frame in the buffer is zero. */
  function ParsedBuf(diag: Diag, ext: seq<u8>): (r: seq<u8>)
    requires ext != []
    ensures |r| == |ext|
  {
    [ext[0]] + InPlace.Decoded(ext[1..], if |ext| == EXT_SIZE then diag.beyond else 0)
  }

  /** The receive switch of `eng_vdiag_wthread` on one read. */
  function Receive(r: Receiver, chunk: seq<u8>, diag: Diag): (Receiver, Action)
    requires chunk != []
  {
    if !r.toAp then (r.(toAp := chunk[|chunk| - 1] == FLAG), Forward(chunk))
    else
      var fed := Feed(r.ext, chunk);
      if fed.found then (EMPTY, Deliver(fed.ext))
      else if fed.ext == [] then (EMPTY, Forward(chunk))
      else if EXT_SIZE / 2 <= |fed.ext| then
        var buf := ParsedBuf(diag, fed.ext);
        if Common(diag, buf) then (Receiver([], false), Forward(buf)) else (Receiver(buf, true), Hold)
      else (Receiver(fed.ext, true), Hold)
  }

  /** The static state of vdiag.c. The last cell of the array stands for the byte behind `ext_data_buf`. */
  class DiagPort {
    const diag: Diag
    const extDataBuf: array<u8>
    var extBufLen: nat
    var toAp: bool

    ghost predicate Valid()
      reads this, extDataBuf
    {
      && extDataBuf.Length == EXT_SIZE + 1 && extBufLen <= EXT_SIZE && extDataBuf[EXT_SIZE] == diag.beyond
      && forall k :: extBufLen <= k < EXT_SIZE ==> extDataBuf[k] == 0
    }

    ghost function View(): Receiver
      requires Valid()
      reads this, extDataBuf
    {
      Receiver(extDataBuf[..extBufLen], toAp)
    }

    constructor (diag: Diag)
      ensures Valid() && View() == EMPTY && this.diag == diag && fresh(extDataBuf)
    {
      this.diag := diag;
      extDataBuf := new u8[EXT_SIZE + 1](i => if i == EXT_SIZE then diag.beyond else 0);
      extBufLen, toAp := 0, true;
    }

    /** `init_user_diag_buf` */
    method InitUserDiagBuf()
      requires Valid()
      modifies this`extBufLen, extDataBuf
      ensures Valid() && View() == old(View()).(ext := [])
    {
      forall i | 0 <= i < EXT_SIZE {
        extDataBuf[i] := 0;
      }
      extBufLen := 0;
    }

    /** `get_user_diag_buf` */
    method GetUserDiagBuf(buf: seq<u8>) returns (found: bool)
      requires Valid()
      modifies this`extBufLen, extDataBuf
      ensures Valid() && Fed(View().ext, found) == Feed(old(View().ext), buf)
    {
      found := false;
      for i := 0 to |buf|
        invariant Valid() && Feed(old(View().ext), buf) == Feed(View().ext, buf[i..])
      {
        ghost var ext := View().ext;
        assert buf[i..][1..] == buf[i + 1..];
        if buf[i] == 0x7E && extBufLen == 0 {
          extDataBuf[extBufLen] := buf[i];
          extBufLen := extBufLen + 1;
          assert View().ext == [buf[i]];
        } else if extBufLen > 0 && extBufLen < EXT_SIZE {
          extDataBuf[extBufLen] := buf[i];
          extBufLen := extBufLen + 1;
          assert View().ext == ext + [buf[i]];
          if buf[i] == 0x7E {
            found := true;
            return;
          }
        }
      }
      assert buf[|buf|..] == [];
    }

    /** `eng_diag_parse` */
    method EngDiagParse() returns (common: bool)
      requires Valid() && extBufLen >= 9
      modifies extDataBuf
      ensures Valid() && View().ext == ParsedBuf(diag, old(View().ext)) && common == Common(diag, View().ext)
    {
      hide InPlace.Decoded, HeaderAnswer;
      ghost var ext := View().ext;
      assert ext[1..] == extDataBuf[1..1 + (extBufLen - 1)];
      InPlace.Decode7d7e(extDataBuf, 1, extBufLen - 1);
      assert View().ext == [ext[0]] + extDataBuf[1..extBufLen];
      match HeaderAnswer(extDataBuf[7], extDataBuf[8])
      case ToModem => return true;
      case ToAp => return false;
      case ByContent => return diag.content(extDataBuf[..extBufLen]);
    }

    /** One round of the receive loop of `eng_vdiag_wthread`. */
    method OnRead(chunk: seq<u8>) returns (action: Action)
      requires Valid() && chunk != []
      modifies this, extDataBuf
      ensures Valid() && (View(), action) == Receive(old(View()), chunk, diag)
    {
      hide Feed, ParsedBuf, Common;
      if !toAp {
        action := Forward(chunk);
        toAp := 0x7E == chunk[|chunk| - 1];
        return;
      }
      var found := GetUserDiagBuf(chunk);
      if found {
        action := Deliver(extDataBuf[..extBufLen]);
        InitUserDiagBuf();
      } else if extBufLen == 0 {
        action := Forward(chunk);
      } else if EXT_SIZE / 2 <= extBufLen {
        var common := EngDiagParse();
        if common {
          action := Forward(extDataBuf[..extBufLen]);
          InitUserDiagBuf();
          toAp := false;
        } else {
          action := Hold;
        }
      } else {
        action := Hold;
      }
    }
  }

  // ---- end to end -------------------------------------------------------------------------

  function ReceiveAll(r: Receiver, chunks: seq<seq<u8>>, diag: Diag): (Receiver, seq<Action>)
    requires Reads(chunks)
    decreases |chunks|
  {
    if chunks == [] then (r, [])
    else
      var (r', action) := Receive(r, chunks[0], diag);
      var (end, actions) := ReceiveAll(r', chunks[1..], diag);
      (end, [action] + actions)
  }

  /** Bytes of a frame that are not its closing flag are only collected. */
  lemma {:induction false} FeedInside(ext: seq<u8>, buf: seq<u8>)
    requires FLAG !in buf && ext != [] && |ext| + |buf| <= EXT_SIZE
    ensures Feed(ext, buf) == Fed(ext + buf, false)
    decreases |buf|
  {
    if buf == [] {
      assert ext + buf == ext;
    } else {
      FeedInside(ext + [buf[0]], buf[1..]);
      assert ext + [buf[0]] + buf[1..] == ext + buf;
    }
  }

  lemma {:induction false} FeedAppend(ext: seq<u8>, a: seq<u8>, b: seq<u8>)
    requires !Feed(ext, a).found
    ensures Feed(ext, a + b) == Feed(Feed(ext, a).ext, b)
    decreases |a|
  {
    if a == [] {
      assert a + b == b;
    } else {
      assert (a + b)[1..] == a[1..] + b;
      FeedAppend(Feed1(ext, a[0]).ext, a[1..], b);
    }
  }

  /** A beginning of a frame, and a beginning that reaches its end. */
  lemma FeedFrame(p: seq<u8>, n: nat, junk: seq<u8>)
    requires 1 <= n < |Frame(p)| <= EXT_SIZE
    ensures Feed([], Frame(p)[..n]) == Fed(Frame(p)[..n], false)
    ensures Feed([], Frame(p) + junk) == Fed(Frame(p), true)
  {
    StuffHasNoFlag(p);
    FeedLongPrefix(p, n);
    var s := Stuff(p);
    FeedOpening(s);
    assert Frame(p) + junk == ([FLAG] + s) + ([FLAG] + junk);
    FeedAppend([], [FLAG] + s, [FLAG] + junk);
    assert [FLAG] + s + [FLAG] == Frame(p);
  }

  lemma FeedOpening(s: seq<u8>)
    requires FLAG !in s && |s| < EXT_SIZE
    ensures Feed([], [FLAG] + s) == Fed([FLAG] + s, false)
  {
    assert ([FLAG] + s)[1..] == s;
    FeedInside([FLAG], s);
  }

  lemma PrefixSplits(f: seq<u8>, n: nat, more: seq<u8>, junk: seq<u8>) returns (extra: seq<u8>)
    requires n <= |f| && f[..n] + more <= f + junk
    ensures n + |more| < |f| ==> f[..n] + more == f[..n + |more|]
    ensures n + |more| >= |f| ==> f[..n] + more == f + extra
  {
    var s := f[..n] + more;
    extra := [];
    assert s == (f + junk)[..|s|];
    if n + |more| >= |f| {
      extra := junk[..|s| - |f|];
    }
  }

  lemma BeforeFrame(p: seq<u8>)
    ensures Feed([], []) == Fed([], false) && |Frame(p)| >= 2 && Frame(p)[..0] == []
  {
  }

  lemma FeedBeginning(p: seq<u8>, n: nat)
    requires n < |Frame(p)| <= EXT_SIZE
    ensures Feed([], Frame(p)[..n]) == Fed(Frame(p)[..n], false)
  {
    if n == 0 {
      BeforeFrame(p);
    } else {
      FeedLongPrefix(p, n);
    }
  }

  /** The rest of a frame, after a beginning of it has been received: more of it, and its end. */
  lemma FeedMiddle(p: seq<u8>, n: nat, more: seq<u8>)
    requires n + |more| < |Frame(p)| <= EXT_SIZE && Frame(p)[..n] + more == Frame(p)[..n + |more|]
    ensures Feed(Frame(p)[..n], more) == Fed(Frame(p)[..n + |more|], false)
  {
    hide *;
    FeedBeginning(p, n);
    FeedAppend([], Frame(p)[..n], more);
    FeedBeginning(p, n + |more|);
  }

  lemma FeedEnd(p: seq<u8>, n: nat, more: seq<u8>, extra: seq<u8>)
    requires n < |Frame(p)| <= EXT_SIZE && Frame(p)[..n] + more == Frame(p) + extra
    ensures Feed(Frame(p)[..n], more) == Fed(Frame(p), true)
  {
    hide *;
    FeedBeginning(p, n);
    FeedAppend([], Frame(p)[..n], more);
    BeforeFrame(p);
    FeedFrame(p, 1, extra);
  }

  /** What the calls of `read` can bring. */
  predicate Reads(chunks: seq<seq<u8>>) {
    forall k :: 0 <= k < |chunks| ==> 0 < |chunks[k]| <= 16384
  }

  /** `chunks` are reads that together bring the frame of `p` and end in the read that brings its
      closing flag, whatever `junk` comes behind the flag in that read. */
  predicate Brings(chunks: seq<seq<u8>>, n: nat, p: seq<u8>, junk: seq<u8>)
    requires n <= |Frame(p)|
  {
    Reads(chunks) && chunks != [] && |junk| < |chunks[|chunks| - 1]|
    && Frame(p)[..n] + Concat(chunks) == Frame(p) + junk
  }

  /** Every read but the last holds the frame back, the last delivers it. */
  predicate DeliversLast(actions: seq<Action>, frame: seq<u8>) {
    if |actions| <= 1 then actions == [Deliver(frame)]
    else actions[0] == Hold && DeliversLast(actions[1..], frame)
  }

  lemma {:induction false} ConcatAtLeastLast(chunks: seq<seq<u8>>)
    requires chunks != []
    ensures |Concat(chunks)| >= |chunks[|chunks| - 1]|
  {
    if |chunks| == 1 {
      assert Concat(chunks[1..]) == [];
    } else {
      ConcatAtLeastLast(chunks[1..]);
    }
  }

  /** The read that does not end a frame leaves the rest of the reads to bring the rest of it. */
  lemma BringsRest(chunks: seq<seq<u8>>, n: nat, p: seq<u8>, junk: seq<u8>)
    requires n <= |Frame(p)| && Brings(chunks, n, p, junk)
    ensures Frame(p)[..n] + chunks[0] <= Frame(p) + junk
    ensures |chunks| == 1 ==> n + |chunks[0]| == |Frame(p)| + |junk|
    ensures |chunks| > 1 ==> n + |chunks[0]| < |Frame(p)| && Brings(chunks[1..], n + |chunks[0]|, p, junk)
  {
    hide Frame, Reads;
    RestReads(chunks);
    if |chunks| > 1 {
      ConcatAtLeastLast(chunks[1..]);
    }
    CutHere(Frame(p), n, chunks[0], Concat(chunks[1..]), junk);
  }

  lemma RestReads(chunks: seq<seq<u8>>)
    requires chunks != [] && Reads(chunks)
    ensures Reads(chunks[1..]) && Concat(chunks) == chunks[0] + Concat(chunks[1..])
    ensures |chunks| == 1 ==> Concat(chunks[1..]) == []
  {
  }

  lemma CutHere(f: seq<u8>, n: nat, c: seq<u8>, rest: seq<u8>, junk: seq<u8>)
    requires n <= |f| && f[..n] + (c + rest) == f + junk
    ensures f[..n] + c <= f + junk && n + |c| + |rest| == |f| + |junk|
    ensures n + |c| <= |f| ==> f[..n + |c|] + rest == f + junk
  {
    assert (f[..n] + c) + rest == f + junk;
    if n + |c| <= |f| {
      assert f[..n + |c|] == (f + junk)[..n + |c|] == f[..n] + c;
    }
  }

  /** The receiver keeps the first `n` bytes of the frame as they are: they do not fill half of the
      buffer, or they hold no escape and are not a command for the modem. */
  ghost predicate Kept(p: seq<u8>, n: nat, diag: Diag) {
    EXT_SIZE / 2 <= n < |Frame(p)| ==> InPlace.NoSpecial(Frame(p)[1..n]) && !Common(diag, Frame(p)[..n])
  }

  /** What happens to the first `n` bytes of a frame once they fill half of the buffer: they are decoded in
      place, which leaves them alone exactly if they hold no escape; then they are given away or
      held. */
  lemma LateRead(p: seq<u8>, n: nat, diag: Diag)
    requires 9 <= n < |Frame(p)| && n < EXT_SIZE
    ensures ParsedBuf(diag, Frame(p)[..n]) == Frame(p)[..n] <==> InPlace.NoSpecial(Frame(p)[1..n])
  {
    assert Frame(p)[..n] == [FLAG] + Stuff(p)[..n - 1] && Frame(p)[..n][1..] == Frame(p)[1..n] == Stuff(p)[..n - 1];
    hide Stuff, InPlace.Decoded, InPlace.NoSpecial;
    InPlace.DecodedSameIff(p, n - 1);
    var d := InPlace.Decoded(Stuff(p)[..n - 1], 0);
    assert ([FLAG] + d)[1..] == d && ([FLAG] + Stuff(p)[..n - 1])[1..] == Stuff(p)[..n - 1];
  }

  /** One read in the middle, or at the end, of a frame. */
  lemma ReceiveChunk(r: Receiver, chunk: seq<u8>, diag: Diag, p: seq<u8>, n: nat, junk: seq<u8>)
    requires n < |Frame(p)| <= EXT_SIZE && chunk != [] && Kept(p, n + |chunk|, diag)
    requires r == Receiver(Frame(p)[..n], true) && Frame(p)[..n] + chunk <= Frame(p) + junk
    ensures n + |chunk| < |Frame(p)| ==> Receive(r, chunk, diag) == (Receiver(Frame(p)[..n + |chunk|], true), Hold)
    ensures n + |chunk| >= |Frame(p)| ==> Receive(r, chunk, diag) == (EMPTY, Deliver(Frame(p)))
  {
    hide Feed, Frame, ParsedBuf, Common, InPlace.NoSpecial;
    var extra := PrefixSplits(Frame(p), n, chunk, junk);
    if n + |chunk| < |Frame(p)| {
      FeedMiddle(p, n, chunk);
      if EXT_SIZE / 2 <= n + |chunk| {
        LateRead(p, n + |chunk|, diag);
      }
    } else {
      FeedEnd(p, n, chunk, extra);
    }
  }

  predicate Done(r: Receiver, chunks: seq<seq<u8>>, diag: Diag, frame: seq<u8>)
    requires Reads(chunks)
  {
    var (end, actions) := ReceiveAll(r, chunks, diag);
    end == EMPTY && DeliversLast(actions, frame)
  }

  lemma DoneCons(r: Receiver, chunks: seq<seq<u8>>, diag: Diag, frame: seq<u8>)
    requires Reads(chunks) && chunks != []
    requires var (r', action) := Receive(r, chunks[0], diag);
             if |chunks| == 1 then r' == EMPTY && action == Deliver(frame)
             else action == Hold && Done(r', chunks[1..], diag, frame)
    ensures Done(r, chunks, diag, frame)
  {
    hide Receive;
    var (r', action) := Receive(r, chunks[0], diag);
    assert ([action] + ReceiveAll(r', chunks[1..], diag).1)[1..] == ReceiveAll(r', chunks[1..], diag).1;
  }

  /** What is held after each of the reads, from `n` bytes of the frame on, is kept. */
  ghost predicate AllKept(chunks: seq<seq<u8>>, n: nat, p: seq<u8>, diag: Diag) {
    chunks != [] ==> Kept(p, n + |chunks[0]|, diag) && AllKept(chunks[1..], n + |chunks[0]|, p, diag)
  }

  lemma {:induction false} Delivered(r: Receiver, chunks: seq<seq<u8>>, diag: Diag, p: seq<u8>, n: nat, junk: seq<u8>)
    requires n < |Frame(p)| <= EXT_SIZE && r == Receiver(Frame(p)[..n], true) && Brings(chunks, n, p, junk)
    requires AllKept(chunks, n, p, diag)
    ensures Done(r, chunks, diag, Frame(p))
    decreases |chunks|
  {
    hide Frame, Receive, Done, Concat, Kept;
    BringsRest(chunks, n, p, junk);
    ReceiveChunk(r, chunks[0], diag, p, n, junk);
    if |chunks| > 1 {
      Delivered(Receive(r, chunks[0], diag).0, chunks[1..], diag, p, n + |chunks[0]|, junk);
    }
    DoneCons(r, chunks, diag, Frame(p));
  }

  /** However the frame of `p` is cut into reads, the receiver holds it back until it is complete and then
      delivers it. */
  ghost predicate AlwaysDelivered(p: seq<u8>, diag: Diag) {
    forall chunks: seq<seq<u8>>, junk | Brings(chunks, 0, p, junk) :: Done(EMPTY, chunks, diag, Frame(p))
  }

  /** The frame fits half of the buffer; or it fits the buffer, has nothing to escape, and no part of it
      that fills half of the buffer is a command for the modem. */
  ghost predicate Survives(p: seq<u8>, diag: Diag) {
    || |Frame(p)| <= 8192
    || (&& |Frame(p)| <= 16384 && InPlace.NoSpecial(p)
        && forall n :: 8192 <= n < |Frame(p)| ==> !Common(diag, Frame(p)[..n]))
  }

  lemma {:induction false} PlainStuff(p: seq<u8>)
    ensures InPlace.NoSpecial(p) <==> InPlace.NoSpecial(Stuff(p))
    ensures InPlace.NoSpecial(p) ==> Stuff(p) == p
  {
    if p != [] {
      PlainStuff(p[1..]);
      assert forall k :: 0 < k < |p| ==> p[k] == p[1..][k - 1];
      if Special(p[0]) {
        assert Stuff(p)[0] == ESC;
      } else {
        assert Stuff(p) == [p[0]] + Stuff(p[1..]);
        assert forall k :: 0 < k < |Stuff(p)| ==> Stuff(p)[k] == Stuff(p[1..])[k - 1];
        assert Stuff(p)[1..] == Stuff(p[1..]);
        if InPlace.NoSpecial(Stuff(p)) {
          assert forall k :: 0 <= k < |Stuff(p[1..])| ==> Stuff(p[1..])[k] == Stuff(p)[k + 1];
        }
      }
    }
  }

  lemma SurvivorKept(p: seq<u8>, n: nat, diag: Diag)
    requires Survives(p, diag)
    ensures Kept(p, n, diag)
  {
    hide Common;
    if EXT_SIZE / 2 <= n < |Frame(p)| {
      PlainStuff(p);
      assert Frame(p)[1..n] == p[..n - 1];
    }
  }

  lemma {:induction false} SurvivorAllKept(chunks: seq<seq<u8>>, n: nat, p: seq<u8>, diag: Diag)
    requires Survives(p, diag)
    ensures AllKept(chunks, n, p, diag)
    decreases |chunks|
  {
    hide Kept, Survives;
    if chunks != [] {
      SurvivorKept(p, n + |chunks[0]|, diag);
      SurvivorAllKept(chunks[1..], n + |chunks[0]|, p, diag);
    }
  }

  // ---- frames that do not survive ------------------------------------------------------------

  lemma NotAlways(p: seq<u8>, chunks: seq<seq<u8>>, junk: seq<u8>, diag: Diag)
    requires Brings(chunks, 0, p, junk) && !DeliversLast(ReceiveAll(EMPTY, chunks, diag).1, Frame(p))
    ensures !AlwaysDelivered(p, diag)
  {
    hide DeliversLast, ReceiveAll;
  }

  /** The first of two reads fills half of the buffer. */
  lemma FirstHalf(p: seq<u8>, n: nat, diag: Diag)
    requires EXT_SIZE / 2 <= n < |Frame(p)| && n < EXT_SIZE
    ensures var buf := ParsedBuf(diag, Frame(p)[..n]);
            Receive(EMPTY, Frame(p)[..n], diag)
              == if Common(diag, buf) then (Receiver([], false), Forward(buf)) else (Receiver(buf, true), Hold)
  {
    hide Feed, Frame, ParsedBuf, Common;
    FeedLongPrefix(p, n);
  }

  /** The second brings the rest. */
  lemma SecondHalf(p: seq<u8>, n: nat, buf: seq<u8>, diag: Diag)
    requires 1 <= n < |Frame(p)| <= EXT_SIZE && |buf| == n
    ensures Receive(Receiver(buf, true), Frame(p)[n..], diag) == (EMPTY, Deliver(buf + Frame(p)[n..]))
    ensures Receive(Receiver([], false), Frame(p)[n..], diag) == (EMPTY, Forward(Frame(p)[n..]))
  {
    var rest := Stuff(p)[n - 1..];
    StuffHasNoFlag(p);
    assert Frame(p)[n..] == rest + [FLAG];
    FeedInside(buf, rest);
    FeedAppend(buf, rest, [FLAG]);
    assert buf + rest + [FLAG] == buf + (rest + [FLAG]);
    hide ParsedBuf, Common;
  }

  lemma TwoReads(first: seq<u8>, second: seq<u8>, diag: Diag, r: Receiver)
    requires 0 < |first| <= EXT_SIZE && 0 < |second| <= EXT_SIZE && r == Receive(EMPTY, first, diag).0
    ensures ReceiveAll(EMPTY, [first, second], diag).1
         == [Receive(EMPTY, first, diag).1, Receive(r, second, diag).1]
  {
    hide Receive;
    var both := [first, second];
    var last := both[1..];
    assert last[1..] == [];
    assert last == [second] && ReceiveAll(r, last, diag).1 == [Receive(r, second, diag).1];
  }

  /** What becomes of a frame that is cut in two with the first part filling half of the buffer. It goes to
      the modem in two parts if the first one, decoded, is a command for the modem; else it is delivered with
      its first part decoded, and so unchanged exactly if there is nothing to decode in it. */
  lemma LateCut(p: seq<u8>, n: nat, diag: Diag)
    requires EXT_SIZE / 2 <= n < |Frame(p)| <= EXT_SIZE
    ensures var f := Frame(p);
            var buf := ParsedBuf(diag, f[..n]);
            && ReceiveAll(EMPTY, [f[..n], f[n..]], diag).1
                 == (if Common(diag, buf) then [Forward(buf), Forward(f[n..])] else [Hold, Deliver(buf + f[n..])])
            && (buf + f[n..] == f <==> InPlace.NoSpecial(f[1..n]))
  {
    hide Frame, Receive, ReceiveAll, ParsedBuf, Common, InPlace.NoSpecial;
    var f := Frame(p);
    var buf := ParsedBuf(diag, f[..n]);
    LateRead(p, n, diag);
    assert buf + f[n..] == f <==> buf == f[..n] by {
      assert f == f[..n] + f[n..] && (buf + f[n..])[..n] == buf;
    }
    FirstHalf(p, n, diag);
    SecondHalf(p, n, buf, diag);
    TwoReads(f[..n], f[n..], diag, Receive(EMPTY, f[..n], diag).0);
  }

  /** Such a cut does the frame no harm exactly if its first part is kept. */
  lemma LateCutHarmless(p: seq<u8>, n: nat, diag: Diag)
    requires EXT_SIZE / 2 <= n < |Frame(p)| <= EXT_SIZE
    ensures DeliversLast(ReceiveAll(EMPTY, [Frame(p)[..n], Frame(p)[n..]], diag).1, Frame(p)) <==> Kept(p, n, diag)
  {
    hide Frame, ReceiveAll, ParsedBuf, Common, InPlace.NoSpecial;
    LateCut(p, n, diag);
    LateRead(p, n, diag);
    var f := Frame(p);
    var buf := ParsedBuf(diag, f[..n]);
    assert [Hold, Deliver(buf + f[n..])][1..] == [Deliver(buf + f[n..])];
    assert f == f[..n] + f[n..];
  }

  lemma NotKept(p: seq<u8>, n: nat, diag: Diag)
    requires EXT_SIZE / 2 <= n < |Frame(p)| <= EXT_SIZE && !Kept(p, n, diag)
    ensures !AlwaysDelivered(p, diag)
  {
    hide Frame, Brings, AlwaysDelivered, Reads, Kept, DeliversLast, ReceiveAll;
    BringsInTwo(p, n);
    LateCutHarmless(p, n, diag);
    NotAlways(p, [Frame(p)[..n], Frame(p)[n..]], [], diag);
  }

  /** A frame with something to escape is cut badly before its closing flag. */
  lemma EscapedFrame(p: seq<u8>)
    requires !InPlace.NoSpecial(p)
    ensures !InPlace.NoSpecial(Frame(p)[1..|Frame(p)| - 1])
  {
    PlainStuff(p);
    hide InPlace.NoSpecial;
    assert Frame(p)[1..|Frame(p)| - 1] == Stuff(p);
  }

  lemma {:induction false} FeedFits(ext: seq<u8>, buf: seq<u8>)
    requires |ext| <= EXT_SIZE
    ensures |Feed(ext, buf).ext| <= EXT_SIZE
    decreases |buf|
  {
    if buf != [] {
      FeedFits(Feed1(ext, buf[0]).ext, buf[1..]);
    }
  }

  lemma ReceiveFits(r: Receiver, chunk: seq<u8>, diag: Diag)
    requires |r.ext| <= EXT_SIZE && chunk != []
    ensures |Receive(r, chunk, diag).0.ext| <= EXT_SIZE
    ensures Receive(r, chunk, diag).1.Deliver? ==> |Receive(r, chunk, diag).1.frame| <= EXT_SIZE
  {
    hide Feed, Common;
    FeedFits(r.ext, chunk);
  }

  /** A frame longer than the buffer is never delivered. */
  lemma {:induction false} TooLong(r: Receiver, chunks: seq<seq<u8>>, diag: Diag, frame: seq<u8>)
    requires |r.ext| <= EXT_SIZE < |frame| && Reads(chunks)
    ensures !DeliversLast(ReceiveAll(r, chunks, diag).1, frame)
    decreases |chunks|
  {
    hide Receive;
    if chunks != [] {
      ReceiveFits(r, chunks[0], diag);
      var (next, action) := Receive(r, chunks[0], diag);
      TooLong(next, chunks[1..], diag, frame);
      var rest := ReceiveAll(next, chunks[1..], diag).1;
      assert ([action] + rest)[1..] == rest && ([action] + rest)[0] == action;
      assert action != Deliver(frame);
    }
  }

  /** A full buffer takes no more bytes: from then on nothing is delivered until it is given away to the modem. */
  lemma {:induction false} FullStays(r: Receiver, chunks: seq<seq<u8>>, diag: Diag)
    requires |r.ext| == 16384 && r.toAp && Reads(chunks)
    ensures var (end, actions) := ReceiveAll(r, chunks, diag);
            || (exists k :: 0 <= k < |actions| && actions[k].Forward? && forall j :: 0 <= j < k ==> actions[j] == Hold)
            || (|end.ext| == 16384 && end.toAp && forall k :: 0 <= k < |actions| ==> actions[k] == Hold)
    decreases |chunks|
  {
    if chunks != [] {
      FullRead(r, chunks[0], diag);
      hide Receive;
      var (next, action) := Receive(r, chunks[0], diag);
      if action == Hold {
        FullStays(next, chunks[1..], diag);
        var (end, actions) := ReceiveAll(r, chunks, diag);
        var rest := ReceiveAll(next, chunks[1..], diag).1;
        assert actions == [action] + rest;
        if exists k :: 0 <= k < |rest| && rest[k].Forward? && forall j :: 0 <= j < k ==> rest[j] == Hold {
          var k :| 0 <= k < |rest| && rest[k].Forward? && forall j :: 0 <= j < k ==> rest[j] == Hold;
          assert actions[k + 1].Forward? && forall j :: 0 <= j < k + 1 ==> actions[j] == Hold;
        }
      } else {
        assert ReceiveAll(r, chunks, diag).1[0] == action;
      }
    }
  }

  lemma {:induction false} FullFeed(ext: seq<u8>, buf: seq<u8>)
    requires |ext| == 16384
    ensures Feed(ext, buf) == Fed(ext, false)
    decreases |buf|
  {
    if buf != [] { FullFeed(ext, buf[1..]); }
  }

  lemma FullRead(r: Receiver, chunk: seq<u8>, diag: Diag)
    requires |r.ext| == 16384 && r.toAp && chunk != []
    ensures var (next, action) := Receive(r, chunk, diag);
            (action.Forward? && next == Receiver([], false)) || (action == Hold && |next.ext| == 16384 && next.toAp)
  {
    hide Feed, Common, InPlace.Decoded;
    FullFeed(r.ext, chunk);
  }

  /** What is delivered, whatever is read, starts and ends with a flag. */
  lemma {:induction false} DeliveriesFlagged(r: Receiver, chunks: seq<seq<u8>>, diag: Diag)
    requires (r.ext != [] ==> r.ext[0] == FLAG) && Reads(chunks)
    ensures forall f :: f in Deliveries(ReceiveAll(r, chunks, diag).1) ==> |f| >= 2 && f[0] == 0x7E == f[|f| - 1]
    decreases |chunks|
  {
    hide Receive;
    if chunks != [] {
      ReceiveFlagged(r, chunks[0], diag);
      var (next, action) := Receive(r, chunks[0], diag);
      DeliveriesFlagged(next, chunks[1..], diag);
      DeliveriesCons(r, chunks, diag);
    }
  }

  lemma {:induction false} FeedFlagged(ext: seq<u8>, buf: seq<u8>)
    requires ext != [] ==> ext[0] == FLAG
    ensures var fed := Feed(ext, buf);
            && (fed.ext != [] ==> fed.ext[0] == FLAG)
            && (fed.found ==> |fed.ext| >= 2 && fed.ext[|fed.ext| - 1] == FLAG)
    decreases |buf|
  {
    if buf != [] && !Feed1(ext, buf[0]).found { FeedFlagged(Feed1(ext, buf[0]).ext, buf[1..]); }
  }

  lemma ReceiveFlagged(r: Receiver, chunk: seq<u8>, diag: Diag)
    requires (r.ext != [] ==> r.ext[0] == FLAG) && chunk != []
    ensures var (next, action) := Receive(r, chunk, diag);
            && (next.ext != [] ==> next.ext[0] == FLAG)
            && (action.Deliver? ==> |action.frame| >= 2 && action.frame[0] == 0x7E == action.frame[|action.frame| - 1])
  {
    hide Feed, Common, InPlace.Decoded;
    FeedFlagged(r.ext, chunk);
  }

  function ByteByByte(s: seq<u8>): (r: seq<seq<u8>>)
    ensures Reads(r) && Concat(r) == s
    ensures s != [] ==> r != [] && r[|r| - 1] != []
  {
    if s == [] then [] else
      var r := [[s[0]]] + ByteByByte(s[1..]);
      assert r[1..] == ByteByByte(s[1..]);
      r
  }

  lemma TooLongNotAlways(p: seq<u8>, diag: Diag)
    requires |Frame(p)| > EXT_SIZE
    ensures !AlwaysDelivered(p, diag)
  {
    hide ReceiveAll, DeliversLast, Reads, Concat, AlwaysDelivered;
    var f := Frame(p);
    var chunks := ByteByByte(f);
    assert f[..0] + f == f + [];
    TooLong(EMPTY, chunks, diag, f);
    NotAlways(p, chunks, [], diag);
  }

  /** A frame is reassembled from reads of any size exactly if it survives. */
  lemma DeliveredIff(p: seq<u8>, diag: Diag)
    ensures AlwaysDelivered(p, diag) <==> Survives(p, diag)
  {
    if Survives(p, diag) {
      hide Survives, Done, Frame, Brings;
      forall chunks, junk | Brings(chunks, 0, p, junk) ensures Done(EMPTY, chunks, diag, Frame(p)) {
        SurvivorAllKept(chunks, 0, p, diag);
        SurvivorFits(p, diag);
        Delivered(EMPTY, chunks, diag, p, 0, junk);
      }
    } else if |Frame(p)| > EXT_SIZE {
      TooLongNotAlways(p, diag);
    } else if !InPlace.NoSpecial(p) {
      EscapedFrame(p);
      NotKept(p, |Frame(p)| - 1, diag);
    } else {
      var n :| EXT_SIZE / 2 <= n < |Frame(p)| && Common(diag, Frame(p)[..n]);
      NotKept(p, n, diag);
    }
  }

  lemma SurvivorFits(p: seq<u8>, diag: Diag)
    requires Survives(p, diag)
    ensures 0 < |Frame(p)| <= EXT_SIZE && Frame(p)[..0] == []
  {
  }

  // ---- by the type of the command --------------------------------------------------------------

  /** The commands that the AP answers: those of five types, and some subtypes of four others. */
  predicate ForAp(kind: u8, subtype: u8) {
    || kind in {0x0F, 0x1E, 0x38, 0x5F, 0x62}
    || (kind, subtype) in {(0x00, 0x02), (0x0C, 0x08), (0x11, 0x02), (0x11, 0x0E)}
    || (kind, subtype) in {(0x0D, 0x02), (0x0D, 0x03), (0x0D, 0x04), (0x0D, 0x07), (0x0D, 0x1A)}
  }

  lemma ApCommands(kind: u8, subtype: u8)
    ensures HeaderAnswer(kind, subtype) ==
              if ForAp(kind, subtype) then ToAp else if kind in {0x5E, 0x68} then ByContent else ToModem
  {
  }

  /** A long frame whose header says that it is for the modem, such as any of an unknown type, can be given
      away half; one whose header says that it is not, with nothing to escape, is delivered up to the
      size of the buffer. */
  lemma LongFrames(p: seq<u8>, diag: Diag)
    requires |Frame(p)| > 8192
    ensures |p| >= 8 && (p[6] !in {0x5E, 0x68} && !ForAp(p[6], p[7]) ==> !AlwaysDelivered(p, diag))
    ensures |p| >= 8 && ForAp(p[6], p[7]) ==>
              (AlwaysDelivered(p, diag) <==> |Frame(p)| <= 16384 && InPlace.NoSpecial(p))
  {
    DeliveredIff(p, diag);
    StuffLength(p);
    ApCommands(p[6], p[7]);
    hide AlwaysDelivered, HeaderAnswer, InPlace.NoSpecial, ForAp;
    if |Frame(p)| <= EXT_SIZE && InPlace.NoSpecial(p) {
      forall n | EXT_SIZE / 2 <= n < |Frame(p)| ensures Frame(p)[..n][7] == p[6] && Frame(p)[..n][8] == p[7] {
        PlainStuff(p);
      }
      var n := EXT_SIZE / 2;
      assert Frame(p)[..n][7] == p[6];
    }
  }

  /** So a long version request, type and subtype 0, or any other command for the modem with nothing to
      escape goes there in two parts, byte for byte. */
  lemma SplitToModem(p: seq<u8>, n: nat, diag: Diag)
    requires EXT_SIZE / 2 <= n < |Frame(p)| <= EXT_SIZE && InPlace.NoSpecial(p)
    ensures |p| >= 8
    ensures HeaderAnswer(p[6], p[7]) == ToModem ==>
              ReceiveAll(EMPTY, [Frame(p)[..n], Frame(p)[n..]], diag).1 == [Forward(Frame(p)[..n]), Forward(Frame(p)[n..])]
  {
    PlainStuff(p);
    var f := Frame(p);
    assert f[1..n] == p[..n - 1] && f[..n][7] == p[6] && f[..n][8] == p[7];
    PlainPart(p, n);
    hide Frame, ReceiveAll, ParsedBuf, InPlace.NoSpecial, HeaderAnswer;
    LateRead(p, n, diag);
    LateCut(p, n, diag);
  }

  lemma PlainPart(p: seq<u8>, n: nat)
    requires 1 <= n <= |p| + 1 && InPlace.NoSpecial(p)
    ensures InPlace.NoSpecial(p[..n - 1])
  {
  }

  lemma BringsInTwo(p: seq<u8>, n: nat)
    requires 1 <= n < |Frame(p)| <= EXT_SIZE
    ensures Brings([Frame(p)[..n], Frame(p)[n..]], 0, p, []) && Reads([Frame(p)[..n], Frame(p)[n..]])
  {
    hide Frame;
    var f := Frame(p);
    var chunks := [f[..n], f[n..]];
    var last := chunks[1..];
    assert last == [f[n..]] && Concat(last[1..]) == [];
    assert Concat(chunks) == f[..n] + f[n..] == f;
    assert f[..0] + f == f == f + [];
  }

  lemma FeedLongPrefix(p: seq<u8>, n: nat)
    requires 1 <= n < |Frame(p)| && n <= EXT_SIZE
    ensures Feed([], Frame(p)[..n]) == Fed(Frame(p)[..n], false)
  {
    StuffHasNoFlag(p);
    assert Frame(p)[..n] == [FLAG] + Stuff(p)[..n - 1];
    FeedOpening(Stuff(p)[..n - 1]);
  }

  /** Decoding a delivered frame in place behind its opening flag, whatever byte `z` the buffer
      holds after it, leaves exactly the payload there, followed by one byte of no meaning. */
  lemma DeliveredPayload(p: seq<u8>, z: u8)
    ensures InPlace.Unstuff(Frame(p)[1..], z) == p + [Toggle(z)]
  {
    assert Frame(p)[1..] == Stuff(p) + [FLAG];
    InPlace.UnstuffInverts(p, z);
  }

  // ---- a stream of frames ----------------------------------------------------------------------

  function Stream(ps: seq<seq<u8>>): seq<u8> {
    if ps == [] then [] else Frame(ps[0]) + Stream(ps[1..])
  }

  function Frames(ps: seq<seq<u8>>): (r: seq<seq<u8>>)
    ensures |r| == |ps|
  {
    if ps == [] then [] else [Frame(ps[0])] + Frames(ps[1..])
  }

  /** What is handed to `eng_diag`. */
  function Deliveries(actions: seq<Action>): seq<seq<u8>> {
    if actions == [] then []
    else (if actions[0].Deliver? then [actions[0].frame] else []) + Deliveries(actions[1..])
  }

  /** No read carries bytes behind a closing flag; `n` bytes of the first frame are here already. */
  predicate Aligned(chunks: seq<seq<u8>>, n: nat, ps: seq<seq<u8>>)
    decreases |chunks|
  {
    if chunks == [] || ps == [] then true
    else
      var m := n + |chunks[0]|;
      if m < |Frame(ps[0])| then Aligned(chunks[1..], m, ps)
      else m == |Frame(ps[0])| && Aligned(chunks[1..], 0, ps[1..])
  }

  function Flags(s: seq<u8>): nat {
    if s == [] then 0 else (if s[0] == FLAG then 1 else 0) + Flags(s[1..])
  }

  function Open(ext: seq<u8>): nat {
    if ext == [] then 0 else 1
  }

  lemma {:induction false} FlagsAppend(a: seq<u8>, b: seq<u8>)
    ensures Flags(a + b) == Flags(a) + Flags(b)
  {
    if a == [] {
      assert a + b == b;
    } else {
      assert (a + b)[1..] == a[1..] + b;
      FlagsAppend(a[1..], b);
    }
  }

  lemma {:induction false} NoFlags(s: seq<u8>)
    requires FLAG !in s
    ensures Flags(s) == 0
  {
    if s != [] {
      NoFlags(s[1..]);
    }
  }

  lemma FrameFlags(p: seq<u8>)
    ensures Flags(Frame(p)) == 2
  {
    StuffHasNoFlag(p);
    NoFlags(Stuff(p));
    FlagsAppend([FLAG], Stuff(p));
    FlagsAppend([FLAG] + Stuff(p), [FLAG]);
    assert Flags([FLAG]) == 1;
  }

  lemma {:induction false} StreamFlags(ps: seq<seq<u8>>)
    ensures Flags(Stream(ps)) == 2 * |ps|
  {
    hide Frame;
    if ps != [] {
      FrameFlags(ps[0]);
      FlagsAppend(Frame(ps[0]), Stream(ps[1..]));
      StreamFlags(ps[1..]);
    }
  }

  /** It takes two flags to complete a frame. */
  lemma {:induction false} FeedFlags(ext: seq<u8>, buf: seq<u8>)
    ensures Feed(ext, buf).found ==> 2 <= Flags(buf) + Open(ext)
    ensures Open(Feed(ext, buf).ext) <= Flags(buf) + Open(ext)
    decreases |buf|
  {
    if buf != [] && !Feed1(ext, buf[0]).found {
      FeedFlags(Feed1(ext, buf[0]).ext, buf[1..]);
    }
  }

  lemma ReceiveFlags(r: Receiver, chunk: seq<u8>, diag: Diag)
    requires chunk != []
    ensures var (next, action) := Receive(r, chunk, diag);
            (if action.Deliver? then 2 else 0) + Open(next.ext) <= Flags(chunk) + Open(r.ext)
  {
    hide Feed, Common, Flags;
    FeedFlags(r.ext, chunk);
  }

  lemma {:induction false} DeliveriesFlags(r: Receiver, chunks: seq<seq<u8>>, diag: Diag)
    requires Reads(chunks)
    ensures 2 * |Deliveries(ReceiveAll(r, chunks, diag).1)| <= Flags(Concat(chunks)) + Open(r.ext)
    decreases |chunks|
  {
    hide Receive, Flags, Open;
    if chunks != [] {
      ReceiveFlags(r, chunks[0], diag);
      var (next, action) := Receive(r, chunks[0], diag);
      DeliveriesFlags(next, chunks[1..], diag);
      FlagsAppend(chunks[0], Concat(chunks[1..]));
      DeliveriesCons(r, chunks, diag);
    }
  }

  lemma DeliveriesCons(r: Receiver, chunks: seq<seq<u8>>, diag: Diag)
    requires chunks != [] && Reads(chunks)
    ensures var (next, action) := Receive(r, chunks[0], diag);
            && ReceiveAll(r, chunks, diag).0 == ReceiveAll(next, chunks[1..], diag).0
            && Deliveries(ReceiveAll(r, chunks, diag).1)
                 == (if action.Deliver? then [action.frame] else []) + Deliveries(ReceiveAll(next, chunks[1..], diag).1)
  {
    hide Receive;
    var (next, action) := Receive(r, chunks[0], diag);
    var rest := ReceiveAll(next, chunks[1..], diag).1;
    assert ([action] + rest)[1..] == rest;
  }

  /** The reads bring what is left of a stream of frames. */
  predicate BringsStream(chunks: seq<seq<u8>>, n: nat, ps: seq<seq<u8>>) {
    && Reads(chunks)
    && (if ps == [] then n == 0 && chunks == []
        else n < |Frame(ps[0])| && Frame(ps[0])[..n] + Concat(chunks) == Stream(ps))
  }

  function Held(n: nat, ps: seq<seq<u8>>): Receiver
    requires ps != [] ==> n <= |Frame(ps[0])|
  {
    if ps == [] then EMPTY else Receiver(Frame(ps[0])[..n], true)
  }

  ghost predicate AllSurvive(ps: seq<seq<u8>>, diag: Diag) {
    forall i :: 0 <= i < |ps| ==> Survives(ps[i], diag)
  }

  /** One read of a stream. */
  lemma StreamRead(chunks: seq<seq<u8>>, n: nat, ps: seq<seq<u8>>, diag: Diag)
    requires BringsStream(chunks, n, ps) && ps != [] && chunks != [] && AllSurvive(ps, diag)
    ensures var m := n + |chunks[0]|;
            m < |Frame(ps[0])| ==> Receive(Held(n, ps), chunks[0], diag) == (Held(m, ps), Hold)
    ensures n + |chunks[0]| >= |Frame(ps[0])| ==>
              Receive(Held(n, ps), chunks[0], diag) == (EMPTY, Deliver(Frame(ps[0])))
  {
    hide Frame, Receive, Survives, Concat, Stream, Kept;
    SurvivorFits(ps[0], diag);
    SurvivorKept(ps[0], n + |chunks[0]|, diag);
    StreamCons(chunks, ps);
    CutHere(Frame(ps[0]), n, chunks[0], Concat(chunks[1..]), Stream(ps[1..]));
    ReceiveChunk(Held(n, ps), chunks[0], diag, ps[0], n, Stream(ps[1..]));
  }

  lemma StreamCons(chunks: seq<seq<u8>>, ps: seq<seq<u8>>)
    requires chunks != [] && ps != []
    ensures Concat(chunks) == chunks[0] + Concat(chunks[1..]) && Stream(ps) == Frame(ps[0]) + Stream(ps[1..])
  {
  }

  /** What the reads behind the first one bring. */
  lemma StreamRest(chunks: seq<seq<u8>>, n: nat, ps: seq<seq<u8>>)
    requires BringsStream(chunks, n, ps) && ps != [] && chunks != []
    ensures Reads(chunks[1..])
    ensures n + |chunks[0]| < |Frame(ps[0])| ==> BringsStream(chunks[1..], n + |chunks[0]|, ps)
    ensures n + |chunks[0]| == |Frame(ps[0])| ==> BringsStream(chunks[1..], 0, ps[1..])
    ensures n + |chunks[0]| > |Frame(ps[0])| ==>
              exists lost :: lost != [] && lost + Concat(chunks[1..]) == Stream(ps[1..])
  {
    hide Frame;
    StreamCons(chunks, ps);
    var f, rest, m := Frame(ps[0]), Concat(chunks[1..]), n + |chunks[0]|;
    CutHere(f, n, chunks[0], rest, Stream(ps[1..]));
    if m == |f| {
      assert f[..m] == f;
      assert (f + rest)[m..] == rest && (f + Stream(ps[1..]))[m..] == Stream(ps[1..]);
      StreamStart(chunks[1..], ps[1..]);
    } else if m > |f| {
      LostBehind(f, n, chunks[0], rest, Stream(ps[1..]));
    }
  }

  lemma LostBehind(f: seq<u8>, n: nat, c: seq<u8>, rest: seq<u8>, more: seq<u8>)
    requires n < |f| < n + |c| && f[..n] + (c + rest) == f + more
    ensures exists lost :: lost != [] && lost + rest == more
  {
    var lost := c[|f| - n..];
    assert (f[..n] + (c + rest))[|f|..] == (c + rest)[|f| - n..] == lost + rest;
    assert (f + more)[|f|..] == more;
  }

  lemma StreamStart(chunks: seq<seq<u8>>, ps: seq<seq<u8>>)
    requires Reads(chunks) && Concat(chunks) == Stream(ps)
    ensures BringsStream(chunks, 0, ps)
  {
    if ps != [] {
      assert Frame(ps[0])[..0] + Concat(chunks) == Concat(chunks);
    }
  }

  /** Bytes behind a closing flag take the next opening flag with them. */
  lemma FlagLost(lost: seq<u8>, rest: seq<u8>, ps: seq<seq<u8>>)
    requires lost != [] && lost + rest == Stream(ps)
    ensures Flags(rest) < 2 * |ps|
  {
    StreamFlags(ps);
    FlagsAppend(lost, rest);
    assert ps != [] && lost[0] == Stream(ps)[0] == Frame(ps[0])[0] == FLAG;
  }

  lemma {:induction false} StreamFrom(chunks: seq<seq<u8>>, n: nat, ps: seq<seq<u8>>, diag: Diag)
    requires BringsStream(chunks, n, ps) && AllSurvive(ps, diag)
    ensures var (end, actions) := ReceiveAll(Held(n, ps), chunks, diag);
            && (Aligned(chunks, n, ps) ==> end == EMPTY && Deliveries(actions) == Frames(ps))
            && (!Aligned(chunks, n, ps) ==> |Deliveries(actions)| < |ps|)
    decreases |chunks|
  {
    hide Frame, Receive, ReceiveAll, Survives, Concat, Stream, Flags, Deliveries;
    if ps == [] || chunks == [] {
      StreamOver(chunks, n, ps, diag);
    } else {
      StreamRead(chunks, n, ps, diag);
      StreamRest(chunks, n, ps);
      DeliveriesCons(Held(n, ps), chunks, diag);
      var f, m := Frame(ps[0]), n + |chunks[0]|;
      if m < |f| {
        StreamFrom(chunks[1..], m, ps, diag);
      } else if m == |f| {
        StartHeld(ps[1..]);
        StreamFrom(chunks[1..], 0, ps[1..], diag);
      } else {
        var lost :| lost != [] && lost + Concat(chunks[1..]) == Stream(ps[1..]);
        FlagLost(lost, Concat(chunks[1..]), ps[1..]);
        DeliveriesFlags(EMPTY, chunks[1..], diag);
      }
    }
  }

  lemma StartHeld(ps: seq<seq<u8>>)
    ensures Held(0, ps) == EMPTY
  {
  }

  lemma StreamOver(chunks: seq<seq<u8>>, n: nat, ps: seq<seq<u8>>, diag: Diag)
    requires BringsStream(chunks, n, ps) && (ps == [] || chunks == [])
    ensures chunks == [] && ps == []
    ensures ReceiveAll(EMPTY, chunks, diag) == (EMPTY, []) && Deliveries([]) == [] && Frames(ps) == []
  {
    hide Frame;
    assert chunks == [] ==> Concat(chunks) == [];
  }

  /** A stream of frames, cut into reads in any way, is delivered frame by frame exactly if no read carries
      bytes behind a closing flag; else fewer frames are delivered than were sent. */
  lemma StreamDelivered(chunks: seq<seq<u8>>, ps: seq<seq<u8>>, diag: Diag)
    requires Reads(chunks) && Concat(chunks) == Stream(ps) && AllSurvive(ps, diag)
    ensures Deliveries(ReceiveAll(EMPTY, chunks, diag).1) == Frames(ps) <==> Aligned(chunks, 0, ps)
    ensures Aligned(chunks, 0, ps) ==> ReceiveAll(EMPTY, chunks, diag).0 == EMPTY
    ensures |Deliveries(ReceiveAll(EMPTY, chunks, diag).1)| <= |ps|
  {
    hide ReceiveAll, Concat, Stream, Deliveries, Aligned, AllSurvive;
    StreamStart(chunks, ps);
    StartHeld(ps);
    StreamFrom(chunks, 0, ps, diag);
  }

  // ---- what is not a frame -------------------------------------------------------------------

  function Forwards(chunks: seq<seq<u8>>): (r: seq<Action>)
    ensures |r| == |chunks|
  {
    if chunks == [] then [] else [Forward(chunks[0])] + Forwards(chunks[1..])
  }

  lemma {:induction false} FeedNoFlag(buf: seq<u8>)
    requires FLAG !in buf
    ensures Feed([], buf) == Fed([], false)
  {
    if buf != [] {
      FeedNoFlag(buf[1..]);
    }
  }

  /** Reads without a flag, outside of a frame, go to the modem unchanged, every one. */
  lemma {:induction false} PassedThrough(chunks: seq<seq<u8>>, diag: Diag)
    requires Reads(chunks) && forall k :: 0 <= k < |chunks| ==> FLAG !in chunks[k]
    ensures ReceiveAll(EMPTY, chunks, diag) == (EMPTY, Forwards(chunks))
    decreases |chunks|
  {
    if chunks != [] {
      FeedNoFlag(chunks[0]);
      hide Feed;
      PassedThrough(chunks[1..], diag);
    }
  }

  predicate EndsFrame(chunk: seq<u8>) {
    chunk != [] && chunk[|chunk| - 1] == FLAG
  }

  /** Once a half frame has been given away, every read goes to the modem unchanged, up to and with the
      first one that ends in a flag; behind it the receiver looks for frames again. */
  lemma {:induction false} RestForwarded(r: Receiver, chunks: seq<seq<u8>>, diag: Diag)
    requires !r.toAp && Reads(chunks) && chunks != []
    requires forall k :: 0 <= k < |chunks| - 1 ==> !EndsFrame(chunks[k])
    ensures ReceiveAll(r, chunks, diag) == (r.(toAp := EndsFrame(chunks[|chunks| - 1])), Forwards(chunks))
    decreases |chunks|
  {
    hide Feed;
    assert |chunks| > 1 ==> !EndsFrame(chunks[0]);
    if |chunks| > 1 {
      RestForwarded(r, chunks[1..], diag);
    } else {
      assert Forwards(chunks) == [Forward(chunks[0])];
    }
  }
}
