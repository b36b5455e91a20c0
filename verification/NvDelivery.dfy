/** Delivery: a complete request whose packets arrive in order is committed, however its bytes are
    spread over packets and whatever packets out of order arrive in between. */
module NvDelivery {
  import opened Words
  import opened NvBuffer
  import opened NvSync
  import opened NvRequest
  import opened NvPacket
  import opened NvAtomicity

  /** Where the token after the first `i` bodies starts on the wire. */
  function TokenAt(r: Request, i: nat): nat
    requires i <= |r.bodies|
  {
    |r.head| + |WireBodies(r.bodies[..i])|
  }

  /** A packet may end after `e` bytes of the request: no token is split there. */
  ghost predicate CutOk(r: Request, e: nat) {
    !(0 < e < TOKEN) && forall i :: 0 <= i <= |r.bodies| ==> !(TokenAt(r, i) < e < TokenAt(r, i) + TOKEN)
  }

  /** The request fits the partition it names. */
  predicate Deliverable(ids: seq<u32>, part: nat, sctNum: nat, r: Request) {
    && Complete(ids, part, r)
    && forall i :: 0 <= i < |r.bodies| ==>
         SectorCount(r.bodies[i].tok) >= 1 && StartSector(r.bodies[i].tok) + SectorCount(r.bodies[i].tok) <= sctNum
  }

  // ---- the wire -------------------------------------------------------------------------

  lemma WireFrom(r: Request, i: nat)
    requires i <= |r.bodies|
    ensures TokenAt(r, i) <= |Wire(r)| - |r.tail|
    ensures i < |r.bodies| ==> TokenAt(r, i + 1) == TokenAt(r, i) + |r.bodies[i].tok| + |r.bodies[i].data|
    ensures i == |r.bodies| ==> Wire(r)[TokenAt(r, i)..] == r.tail
    ensures i < |r.bodies| ==> r.bodies[i].tok + r.bodies[i].data <= Wire(r)[TokenAt(r, i)..]
    decreases |r.bodies| - i
  {
    if i == |r.bodies| {
      assert r.bodies[..i] == r.bodies;
    } else {
      WireFrom(r, i + 1);
      assert r.bodies[..i + 1] == r.bodies[..i] + [r.bodies[i]];
      WireBodiesSnoc(r.bodies[..i], r.bodies[i]);
      WirePrefix(r, i + 1);
      var b := r.bodies[i];
      assert r.head + WireBodies(r.bodies[..i + 1]) == (r.head + WireBodies(r.bodies[..i])) + (b.tok + b.data);
    }
  }

  lemma WirePrefix(r: Request, i: nat)
    requires i <= |r.bodies|
    ensures r.head + WireBodies(r.bodies[..i]) <= Wire(r)
    decreases |r.bodies| - i
  {
    if i == |r.bodies| {
      assert r.bodies[..i] == r.bodies;
    } else {
      WirePrefix(r, i + 1);
      assert r.bodies[..i + 1] == r.bodies[..i] + [r.bodies[i]];
      WireBodiesSnoc(r.bodies[..i], r.bodies[i]);
      assert r.head + WireBodies(r.bodies[..i + 1]) ==
             (r.head + WireBodies(r.bodies[..i])) + r.bodies[i].tok + r.bodies[i].data;
    }
  }

  // ---- following the analyser -----------------------------------------------------------

  /** The bytes of `r` behind the analyser in that state: after `i` bodies, and `off` data bytes of the next. */
  ghost function Used(r: Request, state: nat, i: nat, off: nat): seq<u8>
    requires i <= |r.bodies| && (state == 2 ==> i < |r.bodies| && off <= |r.bodies[i].data|)
  {
    if state == 0 then []
    else
      var done := r.head + WireBodies(r.bodies[..i]);
      if state == 2 then done + r.bodies[i].tok + r.bodies[i].data[..off] else done
  }

  ghost function PendingAt(r: Request, state: nat, i: nat, off: nat): Pending
    requires i <= |r.bodies| && (state == 2 ==> i < |r.bodies| && off <= |r.bodies[i].data|)
  {
    if state == 2 then Pending(r.head, r.bodies[..i], r.bodies[i].tok, r.bodies[i].data[..off])
    else Pending(r.head, r.bodies[..i], [], [])
  }

  /** What there is before a request: the committed copies, and the marks in the channel copy of its partition. */
  datatype Base = Base(copies: seq<Buf>, channel: set<nat>)

  /** What does not change while `r` is analysed: everything but the channel image of its partition. */
  ghost predicate Setting(ids: seq<u32>, part: nat, base: Base, r: Request, nv: Nv) {
    && nv.Valid() && IdsMatch(ids, nv.parts) && OthersClean(nv)
    && part < |nv.parts| && Deliverable(ids, part, nv.parts[part].sctNum, r)
    && |base.copies| == |nv.parts| && forall j :: 0 <= j < |base.copies| ==> nv.parts[j].backup == base.copies[j]
  }

  /** The analyser has consumed the beginning of `r`, and its packet continues `r`. */
  ghost predicate OnTrack(ids: seq<u32>, part: nat, base: Base, r: Request, nv: Nv, i: nat, off: nat) {
    && Setting(ids, part, base, r, nv) && nv.sync.busy
    && i <= |r.bodies| && (nv.sync.state == 0 ==> i == 0) && (nv.sync.state != 0 ==> nv.sync.id == part)
    && (nv.sync.state == 2 ==> i < |r.bodies| && off < |r.bodies[i].data|)
    && ProgressOk(ids, nv, PendingAt(r, nv.sync.state, i, off), Used(r, nv.sync.state, i, off))
    && Used(r, nv.sync.state, i, off) + nv.buf <= Wire(r)
    && nv.parts[part].fromChannel.dirty == base.channel + Touched(r.bodies[..if nv.sync.state == 2 then i + 1 else i])
  }

  /** `r` has taken effect, and nothing else has. */
  ghost predicate Committed(part: nat, base: Base, r: Request, nv: Nv) {
    && nv.Valid() && nv.sync == IDLE && OthersClean(nv)
    && part < |nv.parts| && |base.copies| == |nv.parts|
    && (forall j :: 0 <= j < |base.copies| && j != part ==> nv.parts[j].backup == base.copies[j])
    && nv.parts[part].backup == Buf(ApplyBodies(base.copies[part].image, r.bodies),
                                    base.copies[part].dirty + base.channel + Touched(r.bodies))
  }

  /** Whatever comes next on the wire is what the packet starts with. */
  lemma NextOnWire(wire: seq<u8>, used: seq<u8>, buf: seq<u8>, x: seq<u8>)
    requires used + buf <= wire && x <= wire[|used|..]
    ensures |buf| >= |x| ==> buf[..|x|] == x && used + x + buf[|x|..] <= wire
    ensures |buf| < |x| ==> buf == x[..|buf|]
  {
    assert wire[|used|..][..|buf|] == buf;
    if |buf| >= |x| { assert used + x + buf[|x|..] == used + buf; }
  }

  lemma DeliverableParts(ids: seq<u32>, part: nat, sctNum: nat, r: Request)
    requires Deliverable(ids, part, sctNum, r)
    ensures HeadOk(ids, part, r.head) && BodiesOk(r.head, r.bodies)
    ensures TokenOk(r.tail, TAIL, Numbered(r.head, |r.bodies| + 1))
  {
  }

  lemma TrackHead(ids: seq<u32>, part: nat, base: Base, r: Request, nv: Nv, off: nat)
    requires OnTrack(ids, part, base, r, nv, 0, off) && nv.sync.state == 0 && |nv.buf| >= TOKEN
    ensures OnTrack(ids, part, base, r, OnHead(nv), 0, 0) && OnHead(nv).sync.state == 1
    ensures Used(r, 1, 0, 0) + OnHead(nv).buf == Used(r, 0, 0, off) + nv.buf
  {
    hide Word32, Deliverable;
    DeliverableParts(ids, part, nv.parts[part].sctNum, r);
    var tok := nv.buf[..TOKEN];
    assert Wire(r)[0..] == Wire(r) && r.head <= Wire(r);
    NextOnWire(Wire(r), [], nv.buf, r.head);
    assert tok == r.head;
    assert CtlId(nv.parts, PartId(tok)) == part;
    assert r.bodies[..0] == [];
    HeadProgress(ids, nv, PendingAt(r, 0, 0, off), []);
    assert r.head + WireBodies([]) == [] + r.head;
    assert tok + nv.buf[TOKEN..] == nv.buf;
  }

  lemma TrackBody(ids: seq<u32>, part: nat, base: Base, r: Request, nv: Nv, i: nat, off: nat)
    requires OnTrack(ids, part, base, r, nv, i, off) && nv.sync.state == 1 && |nv.buf| >= TOKEN && i < |r.bodies|
    ensures OnBody(nv).Some? && OnBody(nv).value.sync.state == 2
    ensures OnTrack(ids, part, base, r, OnBody(nv).value, i, 0)
    ensures Used(r, 2, i, 0) + OnBody(nv).value.buf == Used(r, 1, i, off) + nv.buf
  {
    hide Word32;
    DeliverableParts(ids, part, nv.parts[part].sctNum, r);
    var tok, b, used := nv.buf[..TOKEN], r.bodies[i], Used(r, 1, i, off);
    WireFrom(r, i);
    assert b.tok <= Wire(r)[|used|..];
    NextOnWire(Wire(r), used, nv.buf, b.tok);
    NumberedNext(r.head, i);
    BodyProgress(ids, nv, PendingAt(r, 1, i, off), used);
    assert used + tok == Used(r, 2, i, 0);
    assert used + tok + nv.buf[TOKEN..] == used + nv.buf;
    assert r.bodies[..i + 1] == r.bodies[..i] + [b];
    TouchedSnoc(r.bodies[..i], b);
  }

  lemma TrackTail(ids: seq<u32>, part: nat, base: Base, r: Request, nv: Nv, off: nat)
    requires OnTrack(ids, part, base, r, nv, |r.bodies|, off) && nv.sync.state == 1 && |nv.buf| >= TOKEN
    ensures OnBody(nv).Some? && Committed(part, base, r, OnBody(nv).value) && OnBody(nv).value.buf == []
    ensures |Used(r, 1, |r.bodies|, off) + nv.buf| == |Wire(r)|
  {
    hide Word32;
    DeliverableParts(ids, part, nv.parts[part].sctNum, r);
    var used := Used(r, 1, |r.bodies|, off);
    WireFrom(r, |r.bodies|);
    NextOnWire(Wire(r), used, nv.buf, r.tail);
    NumberedNext(r.head, |r.bodies|);
    assert r.bodies[..|r.bodies|] == r.bodies;
  }

  /** The rest of the data of body `i` comes next on the wire. */
  lemma WireData(r: Request, i: nat, off: nat)
    requires i < |r.bodies| && off <= |r.bodies[i].data|
    ensures |Used(r, 2, i, off)| <= |Wire(r)| && r.bodies[i].data[off..] <= Wire(r)[|Used(r, 2, i, off)|..]
  {
    hide Wire, WireBodies;
    WireFrom(r, i);
    var b := r.bodies[i];
    var rest := Wire(r)[TokenAt(r, i)..];
    assert |Used(r, 2, i, off)| == TokenAt(r, i) + |b.tok| + off;
    assert rest[|b.tok| + off..] == Wire(r)[|Used(r, 2, i, off)|..];
    assert (b.tok + b.data)[|b.tok| + off..] == b.data[off..];
  }

  lemma UsedData(r: Request, i: nat, off: nat, piece: seq<u8>)
    requires i < |r.bodies| && off + |piece| <= |r.bodies[i].data|
    requires r.bodies[i].data[..off] + piece == r.bodies[i].data[..off + |piece|]
    ensures Used(r, 2, i, off) + piece == Used(r, 2, i, off + |piece|)
  {
    hide WireBodies;
    var b, done := r.bodies[i], r.head + WireBodies(r.bodies[..i]);
    assert done + b.tok + b.data[..off] + piece == done + b.tok + (b.data[..off] + piece);
  }

  lemma UsedAll(r: Request, i: nat)
    requires i < |r.bodies|
    ensures Used(r, 2, i, |r.bodies[i].data|) == Used(r, 1, i + 1, 0)
  {
    var b, before := r.bodies[i], WireBodies(r.bodies[..i]);
    assert r.bodies[..i + 1] == r.bodies[..i] + [b] && b.data[..|b.data|] == b.data;
    WireBodiesSnoc(r.bodies[..i], b);
    assert r.head + (before + b.tok + b.data) == r.head + before + b.tok + b.data;
  }

  lemma SplitData(wire: seq<u8>, used: seq<u8>, data: seq<u8>, off: nat, buf: seq<u8>, n: nat)
    requires off <= |data| && n == Min(|data| - off, |buf|) && used + buf <= wire && data[off..] <= wire[|used|..]
    ensures data[..off] + buf[..n] == data[..off + n] && used + buf[..n] + buf[n..] == used + buf
    ensures off + n == |data| ==> data[..off + n] == data
  {
    NextOnWire(wire, used, buf, data[off..]);
    assert buf[..n] == data[off..off + n];
  }

  /** Data bytes of body `i` at the front of a packet. */
  lemma DataOnWire(r: Request, i: nat, off: nat, buf: seq<u8>, n: nat)
    requires i < |r.bodies| && off <= |r.bodies[i].data| && n == Min(|r.bodies[i].data| - off, |buf|)
    requires Used(r, 2, i, off) + buf <= Wire(r)
    ensures r.bodies[i].data[..off] + buf[..n] == r.bodies[i].data[..off + n]
    ensures Used(r, 2, i, off) + buf[..n] == Used(r, 2, i, off + n)
    ensures Used(r, 2, i, off + n) + buf[n..] == Used(r, 2, i, off) + buf
    ensures off + n == |r.bodies[i].data| ==>
              Used(r, 2, i, off + n) == Used(r, 1, i + 1, 0) && r.bodies[i].data[..off + n] == r.bodies[i].data
  {
    hide Used, Wire, WireBodies;
    WireData(r, i, off);
    SplitData(Wire(r), Used(r, 2, i, off), r.bodies[i].data, off, buf, n);
    UsedData(r, i, off, buf[..n]);
    UsedAll(r, i);
  }

  lemma LeftOfBody(ids: seq<u32>, part: nat, r: Request, p: Part, s: Sync, i: nat, off: nat)
    requires i < |r.bodies| && off <= |r.bodies[i].data| && Deliverable(ids, part, p.sctNum, r)
    requires InsideBody(p, s, PendingAt(r, 2, i, off), Used(r, 2, i, off))
    ensures s.len == |r.bodies[i].data| - off
  {
    hide Word32, Used;
    DeliverableParts(ids, part, p.sctNum, r);
  }

  lemma TrackData(ids: seq<u32>, part: nat, base: Base, r: Request, nv: Nv, i: nat, off: nat)
    returns (i': nat, off': nat)
    requires OnTrack(ids, part, base, r, nv, i, off) && nv.sync.state == 2 && nv.buf != []
    ensures OnTrack(ids, part, base, r, OnData(nv), i', off')
    ensures Used(r, OnData(nv).sync.state, i', off') + OnData(nv).buf == Used(r, 2, i, off) + nv.buf
  {
    hide Word32, Deliverable, Wire, Used, WireBodies, ApplyBodies;
    var s, p, b := nv.sync, nv.parts[part], r.bodies[i];
    var n := Min(s.len, |nv.buf|);
    LeftOfBody(ids, part, r, p, s, i, off);
    DataOnWire(r, i, off, nv.buf, n);
    DataProgress(p, s, PendingAt(r, 2, i, off), Used(r, 2, i, off), nv.buf[..n]);
    if s.len <= |nv.buf| {
      i', off' := i + 1, 0;
      DataCloses(WriteData(p, s.start, nv.buf[..n]), s.(start := s.start + n, len := s.len - n),
                 PendingAt(r, 2, i, off + n), Used(r, 2, i, off + n));
      assert r.bodies[..i + 1] == r.bodies[..i] + [b];
    } else {
      i', off' := i, off + n;
    }
  }

  /** An analyser on track has not seen the tail yet. */
  lemma TailAhead(ids: seq<u32>, part: nat, base: Base, r: Request, nv: Nv, i: nat, off: nat)
    requires OnTrack(ids, part, base, r, nv, i, off)
    ensures |Used(r, nv.sync.state, i, off)| < |Wire(r)|
    ensures nv.sync.state == 1 ==> |Used(r, 1, i, off)| == TokenAt(r, i)
  {
    hide Word32, ProgressOk, Deliverable;
    DeliverableParts(ids, part, nv.parts[part].sctNum, r);
    WireFrom(r, i);
    if nv.sync.state == 2 { WireFrom(r, i + 1); }
  }

  /** Where the analyser is at the end of its packet: further on in `r`, or done with it. */
  ghost predicate PacketDone(ids: seq<u32>, part: nat, base: Base, r: Request, e: nat, nv: Nv) {
    && nv.buf == []
    && (e == |Wire(r)| ==> Committed(part, base, r, nv))
    && (e < |Wire(r)| ==> exists i, off :: OnTrack(ids, part, base, r, nv, i, off) && |Used(r, nv.sync.state, i, off)| == e)
  }

  // ---- what the daemon drops -------------------------------------------------------------

  /** A token of `r` starts at byte `e`. */
  ghost predicate AtToken(r: Request, e: nat) {
    e == 0 || exists i :: 0 <= i <= |r.bodies| && e == TokenAt(r, i)
  }

  /** What may stand behind the bytes of `r` in a packet that ends with byte `e` of it: nothing; behind the tail,
      anything; and where a token starts, fewer bytes than a token has. */
  ghost predicate ExtraOk(r: Request, e: nat, extra: seq<u8>) {
    extra == [] || e == |Wire(r)| || (|extra| < TOKEN && AtToken(r, e))
  }

  /** `nv` with more bytes in its packet. */
  function More(nv: Nv, extra: seq<u8>): Nv {
    nv.(buf := nv.buf + extra)
  }

  lemma HeadMore(nv: Nv, extra: seq<u8>)
    requires nv.Valid() && nv.sync.busy && nv.sync.state == 0 && |nv.buf| >= TOKEN && OnHead(nv).sync.state == 1
    ensures More(nv, extra).Valid() && OnHead(More(nv, extra)) == More(OnHead(nv), extra)
  {
    hide Word32;
    assert (nv.buf + extra)[..TOKEN] == nv.buf[..TOKEN];
    assert (nv.buf + extra)[TOKEN..] == nv.buf[TOKEN..] + extra;
  }

  lemma BodyMore(nv: Nv, extra: seq<u8>)
    requires nv.Valid() && nv.sync.state == 1 && |nv.buf| >= TOKEN && OnBody(nv).Some?
    requires OnBody(nv).value.sync.state == 2 || OnBody(nv).value.sync == IDLE
    ensures More(nv, extra).Valid()
    ensures OnBody(More(nv, extra)) ==
              if OnBody(nv).value.sync.state == 2 then Some(More(OnBody(nv).value, extra)) else OnBody(nv)
  {
    hide Word32;
    assert (nv.buf + extra)[..TOKEN] == nv.buf[..TOKEN];
    assert (nv.buf + extra)[TOKEN..] == nv.buf[TOKEN..] + extra;
  }

  lemma DataMore(nv: Nv, extra: seq<u8>)
    requires nv.Valid() && nv.sync.state == 2 && (nv.sync.len <= |nv.buf| || extra == [])
    ensures More(nv, extra).Valid() && OnData(More(nv, extra)) == More(OnData(nv), extra)
  {
    var n := Min(nv.sync.len, |nv.buf|);
    assert (nv.buf + extra)[..n] == nv.buf[..n] && (nv.buf + extra)[n..] == nv.buf[n..] + extra;
  }

  /** Less than a token at the end of a packet is dropped, and the request stays open. */
  lemma ShortEnd(nv: Nv, extra: seq<u8>)
    requires nv.Valid() && nv.sync.busy && nv.buf == [] && nv.sync.state != 2 && |extra| < TOKEN
    ensures More(nv, extra).Valid() && Analyze(More(nv, extra)) == Some(nv)
  {
    var more := More(nv, extra);
    assert more.buf == extra;
    if extra == [] {
      AnalyzeEnd(nv);
    } else {
      AnalyzeStep(more);
      AnalyzeEnd(nv);
    }
  }

  lemma {:induction false} TokenAtGrows(r: Request, i: nat, j: nat)
    requires i <= j <= |r.bodies|
    ensures TokenAt(r, i) <= TokenAt(r, j)
    decreases j
  {
    if i < j {
      TokenAtGrows(r, i, j - 1);
      WireFrom(r, j - 1);
    }
  }

  /** Nothing but data may follow inside the data of a body. */
  lemma NothingInside(ids: seq<u32>, part: nat, base: Base, r: Request, nv: Nv, i: nat, off: nat, extra: seq<u8>)
    requires OnTrack(ids, part, base, r, nv, i, off) && nv.sync.state == 2 && |nv.buf| < nv.sync.len
    requires ExtraOk(r, |Used(r, 2, i, off) + nv.buf|, extra)
    ensures extra == []
  {
    hide Word32, Deliverable;
    var e := |Used(r, 2, i, off) + nv.buf|;
    LeftOfBody(ids, part, r, nv.parts[part], nv.sync, i, off);
    WireFrom(r, i);
    WireFrom(r, i + 1);
    if AtToken(r, e) {
      var j :| 0 <= j <= |r.bodies| && e == TokenAt(r, j);
      if j <= i { TokenAtGrows(r, j, i); } else { TokenAtGrows(r, i + 1, j); }
    }
  }

  lemma {:induction false} TrackPacket(ids: seq<u32>, part: nat, base: Base, r: Request, nv: Nv, i: nat, off: nat,
                                       extra: seq<u8>)
    requires OnTrack(ids, part, base, r, nv, i, off)
    requires CutOk(r, |Used(r, nv.sync.state, i, off) + nv.buf|)
    requires ExtraOk(r, |Used(r, nv.sync.state, i, off) + nv.buf|, extra)
    ensures More(nv, extra).Valid() && Analyze(More(nv, extra)).Some?
    ensures PacketDone(ids, part, base, r, |Used(r, nv.sync.state, i, off) + nv.buf|, Analyze(More(nv, extra)).value)
    decreases |nv.buf|, nv.sync.state
  {
    assert nv.Valid();
    TailAhead(ids, part, base, r, nv, i, off);
    var more := More(nv, extra);
    if nv.buf == [] {
      assert Used(r, nv.sync.state, i, off) + [] == Used(r, nv.sync.state, i, off);
      TrackEnd(ids, part, base, r, nv, i, off, extra);
    } else if nv.sync.state == 0 {
      hide *;
      WholeToken(r, Used(r, 0, i, off), nv.buf, 0);
      TrackHead(ids, part, base, r, nv, off);
      HeadMore(nv, extra);
      MoreStep(nv, extra);
      TrackPacket(ids, part, base, r, OnHead(nv), 0, 0, extra);
    } else if nv.sync.state == 1 {
      hide *;
      WholeToken(r, Used(r, 1, i, off), nv.buf, i);
      MoreStep(nv, extra);
      if i < |r.bodies| {
        TrackBody(ids, part, base, r, nv, i, off);
        BodyMore(nv, extra);
        TrackPacket(ids, part, base, r, OnBody(nv).value, i, 0, extra);
      } else {
        TrackTail(ids, part, base, r, nv, off);
        CommittedIdle(part, base, r, OnBody(nv).value);
        BodyMore(nv, extra);
        AnalyzeEnd(OnBody(nv).value);
        CommittedIsDone(ids, part, base, r, OnBody(nv).value);
      }
    } else {
      hide *;
      if |nv.buf| < nv.sync.len { NothingInside(ids, part, base, r, nv, i, off, extra); }
      DataMore(nv, extra);
      MoreStep(nv, extra);
      var i', off' := TrackData(ids, part, base, r, nv, i, off);
      TrackPacket(ids, part, base, r, OnData(nv), i', off', extra);
    }
  }

  lemma MoreStep(nv: Nv, extra: seq<u8>)
    requires nv.Valid() && nv.sync.busy && nv.buf != []
    ensures var more := More(nv, extra);
            && more.Valid() && more.sync == nv.sync
            && (nv.sync.state == 0 ==> Analyze(more) == Analyze(OnHead(more)))
            && (nv.sync.state == 1 ==> Analyze(more) == if OnBody(more).None? then None else Analyze(OnBody(more).value))
            && (nv.sync.state == 2 ==> Analyze(more) == Analyze(OnData(more)))
  {
    AnalyzeStep(More(nv, extra));
  }

  lemma CommittedIdle(part: nat, base: Base, r: Request, nv: Nv)
    requires Committed(part, base, r, nv)
    ensures nv.sync == IDLE
  {
  }

  lemma TrackEnd(ids: seq<u32>, part: nat, base: Base, r: Request, nv: Nv, i: nat, off: nat, extra: seq<u8>)
    requires OnTrack(ids, part, base, r, nv, i, off) && nv.buf == []
    requires |Used(r, nv.sync.state, i, off)| < |Wire(r)| && ExtraOk(r, |Used(r, nv.sync.state, i, off)|, extra)
    ensures More(nv, extra).Valid() && Analyze(More(nv, extra)) == Some(nv)
  {
    assert nv.Valid() && nv.sync.busy;
    if nv.sync.state == 2 {
      assert Used(r, 2, i, off) + nv.buf == Used(r, 2, i, off);
      LeftOfBody(ids, part, r, nv.parts[part], nv.sync, i, off);
      NothingInside(ids, part, base, r, nv, i, off, extra);
      assert More(nv, extra) == nv;
      AnalyzeEnd(nv);
    } else {
      ShortEnd(nv, extra);
    }
  }

  /** A packet that does not end inside a token and is at one holds all of it. */
  lemma WholeToken(r: Request, used: seq<u8>, buf: seq<u8>, i: nat)
    requires CutOk(r, |used + buf|) && buf != [] && i <= |r.bodies|
    requires |used| == 0 || |used| == TokenAt(r, i)
    ensures |buf| >= TOKEN
  {
  }

  lemma CommittedIsDone(ids: seq<u32>, part: nat, base: Base, r: Request, nv: Nv)
    requires Committed(part, base, r, nv) && nv.buf == []
    ensures PacketDone(ids, part, base, r, |Wire(r)|, nv)
  {
  }

  // ---- packets --------------------------------------------------------------------------

  /** Sending `chunks` after `from` bytes of `r` splits no token. */
  ghost predicate CutsOk(r: Request, from: nat, chunks: seq<seq<u8>>)
    decreases |chunks|
  {
    chunks != [] ==> CutOk(r, from + |chunks[0]|) && CutsOk(r, from + |chunks[0]|, chunks[1..])
  }

  /** The payload of a packet brings `chunk`, the bytes of `r` from byte `from` on, and nothing else but what
      the daemon drops. */
  ghost predicate Carries(r: Request, from: nat, payload: seq<u8>, chunk: seq<u8>) {
    chunk <= payload && ExtraOk(r, from + |chunk|, payload[|chunk|..])
  }

  /** The packets received bring the chunks, the bytes of `r` from byte `from` on, under the next sub-indices of
      the open group, with any number of packets in between that are not next: repeated, out of
      order, foreign or malformed. */
  ghost predicate Delivers(q: Sequencer, r: Request, from: nat, raws: seq<Raw>, chunks: seq<seq<u8>>)
    decreases |raws|
  {
    if raws == [] then chunks == []
    else
      var raw := raws[0];
      || (Classify(q, raw).Skip? && Delivers(q, r, from, raws[1..], chunks))
      || (&& IsPacket(raw) && Group(raw) == q.grp && Sub(raw) == Inc32(q.sub)
          && chunks != [] && Carries(r, from, Payload(raw), chunks[0])
          && Delivers(Sequencer(q.grp, Inc32(q.sub)), r, from + |chunks[0]|, raws[1..], chunks[1..]))
  }

  /** The next chunk of `r` in the packet buffer. */
  lemma NextChunk(ids: seq<u32>, part: nat, base: Base, r: Request, nv: Nv, i: nat, off: nat,
                  q: Sequencer, chunk: seq<u8>)
    requires OnTrack(ids, part, base, r, nv, i, off) && nv.buf == []
    requires Used(r, nv.sync.state, i, off) + chunk <= Wire(r)
    ensures OnTrack(ids, part, base, r, nv.(q := q, buf := chunk), i, off)
  {
    hide Word32, Deliverable, Wire;
  }

  lemma FirstChunk(ids: seq<u32>, part: nat, base: Base, r: Request, nv: Nv, i: nat, off: nat,
                   raw: Raw, chunks: seq<seq<u8>>)
    requires OnTrack(ids, part, base, r, nv, i, off) && nv.buf == [] && Classify(nv.q, raw).Continue?
    requires chunks != [] && Carries(r, |Used(r, nv.sync.state, i, off)|, Classify(nv.q, raw).body, chunks[0])
    requires Used(r, nv.sync.state, i, off) + Concat(chunks) == Wire(r)
    requires CutsOk(r, |Used(r, nv.sync.state, i, off)|, chunks)
    ensures OnPacket(nv, raw).Some? && OnPacket(nv, raw).value.q == Advance(nv.q, raw)
    ensures PacketDone(ids, part, base, r, |Used(r, nv.sync.state, i, off) + chunks[0]|, OnPacket(nv, raw).value)
    ensures (Used(r, nv.sync.state, i, off) + chunks[0]) + Concat(chunks[1..]) == Wire(r)
    ensures CutsOk(r, |Used(r, nv.sync.state, i, off) + chunks[0]|, chunks[1..])
  {
    hide *;
    OnTrackValid(ids, part, base, r, nv, i, off);
    CutsFirst(r, Used(r, nv.sync.state, i, off), chunks);
    var got := nv.(q := Advance(nv.q, raw), buf := chunks[0]);
    NextChunk(ids, part, base, r, nv, i, off, got.q, chunks[0]);
    ContinuePacket(nv, raw);
    var extra := CarriedExtra(r, |Used(r, nv.sync.state, i, off)|, Classify(nv.q, raw).body, chunks[0]);
    assert |Used(r, nv.sync.state, i, off) + chunks[0]| == |Used(r, nv.sync.state, i, off)| + |chunks[0]|;
    MoreBuf(got, extra);
    TrackPacket(ids, part, base, r, got, i, off, extra);
    AnalyzeKeepsSequencer(More(got, extra));
  }

  lemma CarriedExtra(r: Request, from: nat, payload: seq<u8>, chunk: seq<u8>) returns (extra: seq<u8>)
    requires Carries(r, from, payload, chunk)
    ensures chunk + extra == payload && ExtraOk(r, from + |chunk|, extra)
  {
    extra := payload[|chunk|..];
  }

  lemma MoreBuf(nv: Nv, extra: seq<u8>)
    ensures More(nv, extra) == nv.(buf := nv.buf + extra)
  {
  }

  lemma OnTrackValid(ids: seq<u32>, part: nat, base: Base, r: Request, nv: Nv, i: nat, off: nat)
    requires OnTrack(ids, part, base, r, nv, i, off)
    ensures nv.Valid() && nv.sync.busy
    ensures i <= |r.bodies| && (nv.sync.state == 2 ==> i < |r.bodies| && off <= |r.bodies[i].data|)
  {
  }

  lemma CutsFirst(r: Request, used: seq<u8>, chunks: seq<seq<u8>>)
    requires chunks != [] && used + Concat(chunks) == Wire(r) && CutsOk(r, |used|, chunks)
    ensures used + chunks[0] <= Wire(r) && (used + chunks[0]) + Concat(chunks[1..]) == Wire(r)
    ensures CutOk(r, |used + chunks[0]|) && CutsOk(r, |used + chunks[0]|, chunks[1..])
  {
    hide Wire, CutOk;
    assert used + (chunks[0] + Concat(chunks[1..])) == (used + chunks[0]) + Concat(chunks[1..]);
  }

  lemma ContinuePacket(nv: Nv, raw: Raw)
    requires nv.Valid() && nv.buf == [] && nv.sync.busy && Classify(nv.q, raw).Continue?
    ensures var got := nv.(q := Advance(nv.q, raw), buf := Classify(nv.q, raw).body);
            got.Valid() && OnPacket(nv, raw) == Analyze(got)
  {
    hide Analyze, Classify;
  }

  lemma SkippedPacket(nv: Nv, raw: Raw)
    requires nv.Valid() && nv.buf == [] && Classify(nv.q, raw).Skip?
    ensures OnPacket(nv, raw) == Some(nv)
  {
  }

  /** Packets of the same group that follow the tail have no effect. */
  lemma {:induction false} CommittedStays(part: nat, base: Base, r: Request, nv: Nv, from: nat,
                                          raws: seq<Raw>, chunks: seq<seq<u8>>)
    requires Committed(part, base, r, nv) && nv.buf == [] && Delivers(nv.q, r, from, raws, chunks)
    ensures OnPackets(nv, raws).Some? && Committed(part, base, r, OnPackets(nv, raws).value)
    decreases |raws|
  {
    hide IsPacket;
    if raws != [] {
      AcceptedInOrder(nv.q, raws[0]);
      if Classify(nv.q, raws[0]).Skip? && Delivers(nv.q, r, from, raws[1..], chunks) {
        SkippedPacket(nv, raws[0]);
        CommittedStays(part, base, r, nv, from, raws[1..], chunks);
      } else {
        var nv' := nv.(q := Sequencer(nv.q.grp, Inc32(nv.q.sub)));
        assert OnPacket(nv, raws[0]) == Some(nv');
        CommittedStays(part, base, r, nv', from + |chunks[0]|, raws[1..], chunks[1..]);
      }
    }
  }

  /** From any point of the request, the rest of its packets lead to its commit. */
  lemma {:induction false} TrackPackets(ids: seq<u32>, part: nat, base: Base, r: Request, nv: Nv,
                                        i: nat, off: nat, raws: seq<Raw>, chunks: seq<seq<u8>>)
    requires OnTrack(ids, part, base, r, nv, i, off) && nv.buf == [] && Delivers(nv.q, r, |Used(r, nv.sync.state, i, off)|, raws, chunks)
    requires Used(r, nv.sync.state, i, off) + Concat(chunks) == Wire(r)
    requires CutsOk(r, |Used(r, nv.sync.state, i, off)|, chunks)
    ensures OnPackets(nv, raws).Some? && Committed(part, base, r, OnPackets(nv, raws).value)
    decreases |raws|, 0
  {
    hide *;
    OnTrackValid(ids, part, base, r, nv, i, off);
    TailAhead(ids, part, base, r, nv, i, off);
    MoreToCome(r, Used(r, nv.sync.state, i, off), nv.q, raws, chunks);
    DeliversCases(nv.q, r, |Used(r, nv.sync.state, i, off)|, raws, chunks);
    if Classify(nv.q, raws[0]).Skip? && Delivers(nv.q, r, |Used(r, nv.sync.state, i, off)|, raws[1..], chunks) {
      SkippedPacket(nv, raws[0]);
      TrackPackets(ids, part, base, r, nv, i, off, raws[1..], chunks);
    } else {
      FirstChunk(ids, part, base, r, nv, i, off, raws[0], chunks);
      var used := Used(r, nv.sync.state, i, off);
      assert |used + chunks[0]| == |used| + |chunks[0]|;
      RestCommits(ids, part, base, r, OnPacket(nv, raws[0]).value, used + chunks[0], raws[1..], chunks[1..]);
    }
    OnPacketsStep(nv, raws);
  }

  lemma DeliversCases(q: Sequencer, r: Request, from: nat, raws: seq<Raw>, chunks: seq<seq<u8>>)
    requires raws != [] && Delivers(q, r, from, raws, chunks)
    ensures || (Classify(q, raws[0]).Skip? && Delivers(q, r, from, raws[1..], chunks))
            || (&& chunks != [] && Classify(q, raws[0]).Continue? && Carries(r, from, Classify(q, raws[0]).body, chunks[0])
                && Delivers(Advance(q, raws[0]), r, from + |chunks[0]|, raws[1..], chunks[1..]))
  {
    hide IsPacket, Group, Sub, Payload, Carries;
    AcceptedInOrder(q, raws[0]);
  }

  lemma MoreToCome(r: Request, used: seq<u8>, q: Sequencer, raws: seq<Raw>, chunks: seq<seq<u8>>)
    requires |used| < |Wire(r)| && used + Concat(chunks) == Wire(r) && Delivers(q, r, |used|, raws, chunks)
    ensures raws != []
  {
    hide Wire;
  }

  lemma OnPacketsStep(nv: Nv, raws: seq<Raw>)
    requires nv.Valid() && nv.buf == [] && raws != [] && OnPacket(nv, raws[0]).Some?
    ensures OnPackets(nv, raws) == OnPackets(OnPacket(nv, raws[0]).value, raws[1..])
  {
  }

  lemma SamePrefix(wire: seq<u8>, a: seq<u8>, b: seq<u8>)
    requires a + [] <= wire && b <= wire && |a| == |b|
    ensures a == b
  {
  }

  lemma {:induction false} RestCommits(ids: seq<u32>, part: nat, base: Base, r: Request, nv: Nv,
                                       used: seq<u8>, raws: seq<Raw>, chunks: seq<seq<u8>>)
    requires nv.Valid() && PacketDone(ids, part, base, r, |used|, nv) && Delivers(nv.q, r, |used|, raws, chunks)
    requires used + Concat(chunks) == Wire(r) && CutsOk(r, |used|, chunks)
    ensures OnPackets(nv, raws).Some? && Committed(part, base, r, OnPackets(nv, raws).value)
    decreases |raws|, 1
  {
    hide Setting, ProgressOk, Wire, Committed, CutOk, PendingAt, Used, Delivers;
    if |used| == |Wire(r)| {
      CommittedStays(part, base, r, nv, |used|, raws, chunks);
    } else {
      var i, off :| OnTrack(ids, part, base, r, nv, i, off) && |Used(r, nv.sync.state, i, off)| == |used|;
      SamePrefix(Wire(r), Used(r, nv.sync.state, i, off), used);
      TrackPackets(ids, part, base, r, nv, i, off, raws, chunks);
    }
  }

  /** The packets bring the whole of `r`, spread over `chunks` without splitting a token, as a group of their own. */
  ghost predicate Arrives(r: Request, first: Raw, raws: seq<Raw>, chunks: seq<seq<u8>>) {
    && chunks != [] && Concat(chunks) == Wire(r) && CutsOk(r, 0, chunks)
    && IsPacket(first) && Sub(first) == 0 && Carries(r, 0, Payload(first), chunks[0])
    && Delivers(Sequencer(Group(first), 0), r, |chunks[0]|, raws, chunks[1..])
  }

  /** The sectors marked in the channel copy once an open request has been given up: those of the committed
      copy, if the request was for this partition. */
  ghost function ChannelMarks(nv: Nv, part: nat): set<nat>
    requires part < |nv.parts|
  {
    if nv.sync.state != 0 && nv.sync.id == part then nv.parts[part].backup.dirty else nv.parts[part].fromChannel.dirty
  }

  /** Every complete request that fits its partition and reaches the daemon under a new group, with
      no token split over two packets, is committed, whatever the daemon was doing before, however
      the bytes are spread over packets, whatever packets that are not next arrive in between, and
      with up to 19 stray bytes behind a packet that ends before a token: the committed image of its
      partition changes by exactly the request, exactly the sectors the request names are added to the
      marks of the two copies, no other partition changes, and nothing is left pending. */
  lemma DeliveredRequestCommits(ids: seq<u32>, part: nat, r: Request, nv: Nv, first: Raw, raws: seq<Raw>, chunks: seq<seq<u8>>)
    requires nv.Valid() && nv.buf == [] && IdsMatch(ids, nv.parts) && OthersClean(nv)
    requires part < |nv.parts| && Deliverable(ids, part, nv.parts[part].sctNum, r)
    requires Arrives(r, first, raws, chunks) && Group(first) != nv.q.grp
    ensures OnPackets(nv, [first] + raws).Some?
    ensures var end := OnPackets(nv, [first] + raws).value;
            && end.sync == IDLE && |end.parts| == |nv.parts|
            && (forall j :: 0 <= j < |nv.parts| ==> end.parts[j].fromChannel.image == end.parts[j].backup.image)
            && (forall j :: 0 <= j < |nv.parts| && j != part ==> end.parts[j].backup == nv.parts[j].backup)
            && end.parts[part].backup.image == ApplyBodies(nv.parts[part].backup.image, r.bodies)
            && end.parts[part].backup.dirty == nv.parts[part].backup.dirty + ChannelMarks(nv, part) + Touched(r.bodies)
  {
    var base := Base(seq(|nv.parts|, j requires 0 <= j < |nv.parts| => nv.parts[j].backup), ChannelMarks(nv, part));
    StartCommits(ids, part, base, r, nv, first, raws, chunks);
  }

  /** A request with a body marks something. */
  lemma TouchedSome(ids: seq<u32>, part: nat, sctNum: nat, r: Request)
    requires Deliverable(ids, part, sctNum, r) && r.bodies != []
    ensures Touched(r.bodies) != {}
  {
    hide Word32, Complete;
    DeliverableParts(ids, part, sctNum, r);
    var b := r.bodies[|r.bodies| - 1];
    assert BodyOk(b, Numbered(r.head, |r.bodies|));
    assert StartSector(b.tok) in Sectors(StartSector(b.tok), SectorCount(b.tok));
  }

  /** The first packet of a new group puts the analyser at the start of its request. */
  lemma StartOnTrack(ids: seq<u32>, part: nat, base: Base, r: Request, nv: Nv, first: Raw, chunk: seq<u8>)
    requires Setting(ids, part, base, r, nv) && nv.buf == [] && base.channel == ChannelMarks(nv, part)
    requires Classify(nv.q, first).Start? && chunk <= Wire(r)
    ensures Receive(nv, first).Some? && Receive(nv, first).value.q == Advance(nv.q, first)
    ensures Receive(nv, first).value.buf == Classify(nv.q, first).body
    ensures var got := Receive(nv, first).value.(buf := chunk);
            OnTrack(ids, part, base, r, got, 0, 0) && got.sync.state == 0
  {
    hide Word32, Wire, Deliverable;
    assert [] + chunk == chunk;
  }

  lemma StartCommits(ids: seq<u32>, part: nat, base: Base, r: Request, nv: Nv, first: Raw,
                     raws: seq<Raw>, chunks: seq<seq<u8>>)
    requires Setting(ids, part, base, r, nv) && nv.buf == [] && base.channel == ChannelMarks(nv, part)
    requires Arrives(r, first, raws, chunks) && Group(first) != nv.q.grp
    ensures OnPackets(nv, [first] + raws).Some? && Committed(part, base, r, OnPackets(nv, [first] + raws).value)
  {
    hide *;
    SettingValid(ids, part, base, r, nv);
    ArrivesFirst(r, first, raws, chunks);
    AcceptedInOrder(nv.q, first);
    StartOnTrack(ids, part, base, r, nv, first, chunks[0]);
    var got := Receive(nv, first).value.(buf := chunks[0]);
    var extra := CarriedExtra(r, 0, Payload(first), chunks[0]);
    MoreBuf(got, extra);
    assert More(got, extra) == Receive(nv, first).value;
    UsedNothing(r, chunks[0]);
    TrackPacket(ids, part, base, r, got, 0, 0, extra);
    AnalyzeKeepsSequencer(More(got, extra));
    ReceivedPacket(nv, first);
    RestCommits(ids, part, base, r, Analyze(More(got, extra)).value, chunks[0], raws, chunks[1..]);
    assert ([first] + raws)[1..] == raws;
    OnPacketsStep(nv, [first] + raws);
  }

  lemma SettingValid(ids: seq<u32>, part: nat, base: Base, r: Request, nv: Nv)
    requires Setting(ids, part, base, r, nv)
    ensures nv.Valid()
  {
  }

  lemma UsedNothing(r: Request, chunk: seq<u8>)
    ensures Used(r, 0, 0, 0) + chunk == chunk
  {
  }

  lemma ReceivedPacket(nv: Nv, raw: Raw)
    requires nv.Valid() && nv.buf == [] && Receive(nv, raw).Some?
    ensures OnPacket(nv, raw) == Analyze(Receive(nv, raw).value)
  {
    hide Receive, Analyze;
  }

  // ---- after a failure of the channel ----------------------------------------------------------

  /** After a failure of the channel exactly the groups other than 0xFFFF_FFFF can be started, the one that was
      open included. */
  lemma StartsAfterLose(nv: Nv, raw: Raw)
    requires nv.Valid()
    ensures Classify(Lose(nv).q, raw).Start? <==> IsPacket(raw) && Group(raw) != 0xFFFF_FFFF && Sub(raw) == 0
  {
    AcceptedInOrder(Lose(nv).q, raw);
  }

  /** What a failure of the channel leaves: nothing pending, and every committed copy as it was. */
  lemma LoseSettles(ids: seq<u32>, nv: Nv)
    requires nv.Valid() && IdsMatch(ids, nv.parts) && OthersClean(nv)
    ensures var lost := Lose(nv);
            && lost.Valid() && lost.buf == [] && lost.sync == IDLE && IdsMatch(ids, lost.parts) && OthersClean(lost)
            && |lost.parts| == |nv.parts|
            && (forall j :: 0 <= j < |nv.parts| ==> ChannelMarks(lost, j) == ChannelMarks(nv, j))
            && forall j :: 0 <= j < |nv.parts| ==>
                 lost.parts[j].backup == nv.parts[j].backup && lost.parts[j].toDisk == nv.parts[j].toDisk
                 && lost.parts[j].sctNum == nv.parts[j].sctNum
  {
  }

  lemma ArrivesFirst(r: Request, first: Raw, raws: seq<Raw>, chunks: seq<seq<u8>>)
    requires Arrives(r, first, raws, chunks)
    ensures IsPacket(first) && Sub(first) == 0
    ensures chunks != [] && chunks[0] <= Wire(r) && chunks[0] + Concat(chunks[1..]) == Wire(r)
    ensures CutOk(r, |chunks[0]|) && CutsOk(r, |chunks[0]|, chunks[1..]) && Carries(r, 0, Payload(first), chunks[0])
    ensures Delivers(Sequencer(Group(first), 0), r, |chunks[0]|, raws, chunks[1..])
  {
    hide Wire, Delivers, CutOk, Carries, IsPacket;
  }

  /** A request that comes after the channel has failed, in whatever state, is committed under every group but
      0xFFFF_FFFF: the peer can send it again under the group in which the failure met it. */
  lemma CommitsAfterLose(ids: seq<u32>, part: nat, r: Request, nv: Nv, first: Raw, raws: seq<Raw>, chunks: seq<seq<u8>>)
    requires nv.Valid() && IdsMatch(ids, nv.parts) && OthersClean(nv)
    requires part < |nv.parts| && Deliverable(ids, part, nv.parts[part].sctNum, r)
    requires Arrives(r, first, raws, chunks) && Group(first) != 0xFFFF_FFFF
    ensures Lose(nv).buf == [] && OnPackets(Lose(nv), [first] + raws).Some?
    ensures var end := OnPackets(Lose(nv), [first] + raws).value;
            && end.sync == IDLE && |end.parts| == |nv.parts|
            && (forall j :: 0 <= j < |nv.parts| ==> end.parts[j].fromChannel.image == end.parts[j].backup.image)
            && (forall j :: 0 <= j < |nv.parts| && j != part ==> end.parts[j].backup == nv.parts[j].backup)
            && end.parts[part].backup.image == ApplyBodies(nv.parts[part].backup.image, r.bodies)
            && end.parts[part].backup.dirty == nv.parts[part].backup.dirty + ChannelMarks(nv, part) + Touched(r.bodies)
  {
    hide Deliverable, Arrives, IsPacket, Group, Sub, OnPackets, Lose, Classify, ChannelMarks, Touched;
    ArrivesFirst(r, first, raws, chunks);
    LoseSettles(ids, nv);
    StartsAfterLose(nv, first);
    AcceptedInOrder(Lose(nv).q, first);
    DeliveredRequestCommits(ids, part, r, Lose(nv), first, raws, chunks);
  }
}
