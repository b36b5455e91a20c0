/** Request atomicity: what the sync thread has committed, and what it holds open, in terms of
    the packets received. */
module NvAtomicity {
  import opened Words
  import opened NvBuffer
  import opened NvSync
  import opened NvRequest
  import opened NvSystem
  import opened NvPacket

  /** The bytes of one received packet that went into a request; `at` is its place in the run. */
  datatype Piece = Piece(at: nat, bytes: seq<u8>)

  function Bytes(ps: seq<Piece>): seq<u8> {
    if ps == [] then [] else Bytes(ps[..|ps| - 1]) + ps[|ps| - 1].bytes
  }

  /** A committed request, the packets it came in, and the place in the run of the step that committed it. */
  datatype Commit = Commit(req: Request, grp: u32, pieces: seq<Piece>, end: nat)

  /** The same packets. */
  ghost predicate SameAts(ps: seq<Piece>, qs: seq<Piece>) {
    |ps| == |qs| && forall j :: 0 <= j < |ps| ==> ps[j].at == qs[j].at
  }

  /** The sub-index of the `j`-th packet of a group. */
  function Nth(j: nat): u32 {
    j % 0x1_0000_0000
  }

  /** The packet at `p.at` carries that group and sub-index, and `p.bytes` is the start of its body. */
  predicate PieceOk(trace: seq<Event>, p: Piece, grp: u32, sub: u32) {
    && p.at < |trace| && trace[p.at].Recv? && IsPacket(trace[p.at].raw)
    && Group(trace[p.at].raw) == grp && Sub(trace[p.at].raw) == sub && p.bytes <= Payload(trace[p.at].raw)
  }

  /** What of the packet's body was not used: less than a token. */
  predicate Spent(trace: seq<Event>, p: Piece) {
    && p.at < |trace| && trace[p.at].Recv? && IsPacket(trace[p.at].raw)
    && |Payload(trace[p.at].raw)| < |p.bytes| + TOKEN
  }

  /** The pieces are sub-indices 0, 1, 2, ... of one group, in order of arrival, and every packet
      but possibly the last is used up to a remainder shorter than a token. */
  ghost predicate PiecesOk(trace: seq<Event>, ps: seq<Piece>, grp: u32) {
    && (forall j :: 0 <= j < |ps| ==> PieceOk(trace, ps[j], grp, Nth(j)))
    && (forall j, k :: 0 <= j < k < |ps| ==> ps[j].at < ps[k].at)
    && (forall j :: 0 <= j < |ps| - 1 ==> Spent(trace, ps[j]))
  }

  /** A complete request for partition `part`, byte for byte what those packets carried. */
  ghost predicate CommitOk(trace: seq<Event>, ids: seq<u32>, part: nat, c: Commit) {
    && Complete(ids, part, c.req)
    && c.pieces != [] && PiecesOk(trace, c.pieces, c.grp) && Bytes(c.pieces) == Wire(c.req)
  }

  /** The request under way: its head, its finished bodies, and the body being filled. */
  datatype Pending = Pending(head: seq<u8>, bodies: seq<Body>, tok: seq<u8>, data: seq<u8>)

  const NOTHING: Pending := Pending([], [], [], [])

  ghost predicate IdsMatch(ids: seq<u32>, parts: seq<Part>) {
    |ids| == |parts| && forall i :: 0 <= i < |ids| ==> parts[i].partId == ids[i]
  }

  /** Between two tokens of a request: `used` is its beginning on the wire, and the channel image
      is the committed image with the finished bodies applied. */
  ghost predicate BetweenTokens(p: Part, s: Sync, o: Pending, used: seq<u8>) {
    && BodiesOk(o.head, o.bodies)
    && s.frame == Numbered(o.head, |o.bodies|)
    && used == o.head + WireBodies(o.bodies)
    && p.fromChannel.image == ApplyBodies(p.backup.image, o.bodies)
  }

  /** Inside the data of a body. */
  ghost predicate InsideBody(p: Part, s: Sync, o: Pending, used: seq<u8>) {
    && BodiesOk(o.head, o.bodies)
    && TokenOk(o.tok, BODY, Numbered(o.head, |o.bodies| + 1)) && s.frame == Numbered(o.head, |o.bodies| + 1)
    && InRange(p, o.tok) && p.Valid()
    && |o.data| + s.len == SectorCount(o.tok) * SECTOR && s.start == StartSector(o.tok) * SECTOR + |o.data|
    && used == o.head + WireBodies(o.bodies) + o.tok + o.data
    && p.fromChannel.image == Store(ApplyBodies(p.backup.image, o.bodies), StartSector(o.tok) * SECTOR, o.data)
  }

  /** The part of the request consumed so far is `used`, and the channel image reflects just that. */
  ghost predicate ProgressOk(ids: seq<u32>, nv: Nv, o: Pending, used: seq<u8>) {
    && nv.Valid()
    && if nv.sync.state == 0 then used == []
       else
         && HeadOk(ids, nv.sync.id, o.head)
         && if nv.sync.state == 1 then BetweenTokens(nv.parts[nv.sync.id], nv.sync, o, used)
            else InsideBody(nv.parts[nv.sync.id], nv.sync, o, used)
  }

  /** The pieces of the open group, the last one of the packet under analysis: either `buf` is
      what is left of that packet, or less than a token of it was left unused. */
  ghost predicate PacketOk(trace: seq<Event>, q: Sequencer, buf: seq<u8>, ps: seq<Piece>) {
    && ps != [] && PiecesOk(trace, ps, q.grp)
    && q.sub == Nth(|ps| - 1)
    && var last := ps[|ps| - 1];
       if buf == [] then Spent(trace, last)
       else PieceOk(trace, last, q.grp, q.sub) && Payload(trace[last.at].raw) == last.bytes + buf
  }

  /** Whatever is not part of the open request is untouched. */
  ghost predicate OthersClean(nv: Nv) {
    forall i :: 0 <= i < |nv.parts| && (nv.sync.state == 0 || i != nv.sync.id) ==>
      nv.parts[i].fromChannel.image == nv.parts[i].backup.image
  }

  /** The invariant of the sync thread. */
  ghost predicate SyncInv(trace: seq<Event>, ids: seq<u32>, nv: Nv, o: Pending, ps: seq<Piece>) {
    && nv.Valid() && IdsMatch(ids, nv.parts) && OthersClean(nv)
    && (nv.sync.busy ==> PacketOk(trace, nv.q, nv.buf, ps) && ProgressOk(ids, nv, o, Bytes(ps)))
  }

  // ---- using up bytes of the current packet ---------------------------------------------

  lemma PiecesOkGrows(trace: seq<Event>, e: Event, ps: seq<Piece>, grp: u32)
    requires PiecesOk(trace, ps, grp)
    ensures PiecesOk(trace + [e], ps, grp)
  {
    forall j | 0 <= j < |ps| ensures PieceOk(trace + [e], ps[j], grp, Nth(j)) {
      assert PieceOk(trace, ps[j], grp, Nth(j));
    }
    forall j | 0 <= j < |ps| - 1 ensures Spent(trace + [e], ps[j]) { assert Spent(trace, ps[j]); }
  }

  lemma PacketOkGrows(trace: seq<Event>, e: Event, q: Sequencer, buf: seq<u8>, ps: seq<Piece>)
    requires PacketOk(trace, q, buf, ps)
    ensures PacketOk(trace + [e], q, buf, ps)
  {
    PiecesOkGrows(trace, e, ps, q.grp);
  }

  /** `x` more bytes of the last packet are used. */
  function Feed(ps: seq<Piece>, x: seq<u8>): (r: seq<Piece>)
    requires ps != []
    ensures SameAts(r, ps)
  {
    var n := |ps| - 1;
    ps[..n] + [Piece(ps[n].at, ps[n].bytes + x)]
  }

  lemma FeedBytes(ps: seq<Piece>, x: seq<u8>)
    requires ps != []
    ensures Bytes(Feed(ps, x)) == Bytes(ps) + x
  {
    var n := |ps| - 1;
    assert Feed(ps, x)[..n] == ps[..n];
    assert Bytes(ps[..n]) + (ps[n].bytes + x) == Bytes(ps[..n]) + ps[n].bytes + x;
  }

  /** Using the first `n` bytes of `buf` keeps the packet's books in order. */
  lemma FeedPacket(trace: seq<Event>, q: Sequencer, buf: seq<u8>, ps: seq<Piece>, n: nat)
    requires PacketOk(trace, q, buf, ps) && buf != [] && n <= |buf|
    ensures PacketOk(trace, q, buf[n..], Feed(ps, buf[..n]))
    ensures Bytes(Feed(ps, buf[..n])) == Bytes(ps) + buf[..n]
  {
    var ps' := Feed(ps, buf[..n]);
    var last, last' := ps[|ps| - 1], ps'[|ps| - 1];
    assert last.bytes + buf == last'.bytes + buf[n..];
    forall j | 0 <= j < |ps'| ensures PieceOk(trace, ps'[j], q.grp, Nth(j)) {
      assert PieceOk(trace, ps[j], q.grp, Nth(j));
    }
    forall j | 0 <= j < |ps'| - 1 ensures Spent(trace, ps'[j]) { assert Spent(trace, ps[j]); }
    if buf[n..] == [] { assert last'.bytes == last.bytes + buf; }
    FeedBytes(ps, buf[..n]);
  }

  /** A remainder too short for a token is given up. */
  lemma DropRest(trace: seq<Event>, q: Sequencer, buf: seq<u8>, ps: seq<Piece>)
    requires PacketOk(trace, q, buf, ps) && buf != [] && |buf| < TOKEN
    ensures PacketOk(trace, q, [], ps)
  {
  }

  // ---- progress of one request ----------------------------------------------------------

  ghost predicate SameBackups(a: seq<Part>, b: seq<Part>) {
    |a| == |b| && forall i :: 0 <= i < |a| ==> a[i].backup.image == b[i].backup.image
  }

  lemma HeadProgress(ids: seq<u32>, nv: Nv, o: Pending, used: seq<u8>)
    requires ProgressOk(ids, nv, o, used) && IdsMatch(ids, nv.parts) && OthersClean(nv) && nv.sync.state == 0 && nv.sync.busy
    requires |nv.buf| >= TOKEN && OnHead(nv).sync.state == 1
    ensures ProgressOk(ids, OnHead(nv), Pending(nv.buf[..TOKEN], [], [], []), used + nv.buf[..TOKEN])
  {
  }

  lemma BodyProgress(ids: seq<u32>, nv: Nv, o: Pending, used: seq<u8>)
    requires ProgressOk(ids, nv, o, used) && nv.sync.state == 1
    requires |nv.buf| >= TOKEN && OnBody(nv).Some? && OnBody(nv).value.sync.state == 2
    ensures ProgressOk(ids, OnBody(nv).value, o.(tok := nv.buf[..TOKEN], data := []), used + nv.buf[..TOKEN])
  {
    var tok := nv.buf[..TOKEN];
    NumberedNext(o.head, |o.bodies|);
    assert used + tok == o.head + WireBodies(o.bodies) + tok + [];
  }

  /** Data of the open body, not yet all of it. */
  lemma DataProgress(p: Part, s: Sync, o: Pending, used: seq<u8>, x: seq<u8>)
    requires InsideBody(p, s, o, used) && |x| <= s.len
    ensures InsideBody(WriteData(p, s.start, x), s.(start := s.start + |x|, len := s.len - |x|),
                       o.(data := o.data + x), used + x)
  {
    StoreStore(ApplyBodies(p.backup.image, o.bodies), StartSector(o.tok) * SECTOR, o.data, x);
  }

  /** The last of the data closes the body. */
  lemma DataCloses(p: Part, s: Sync, o: Pending, used: seq<u8>)
    requires InsideBody(p, s, o, used) && s.len == 0
    ensures BetweenTokens(p, s, o.(bodies := o.bodies + [Body(o.tok, o.data)]), used)
  {
    var b := Body(o.tok, o.data);
    WireBodiesSnoc(o.bodies, b);
    ApplyBodiesSnoc(p.backup.image, o.bodies, b);
  }

  /** The effect of a committed request on the committed images. */
  ghost predicate Commits(a: seq<Part>, b: seq<Part>, part: nat, c: Commit) {
    && |a| == |b| && part < |a|
    && b[part].backup.image == ApplyBodies(a[part].backup.image, c.req.bodies)
    && forall i :: 0 <= i < |a| && i != part ==> a[i].backup.image == b[i].backup.image
  }

  // ---- one step of the sync thread ------------------------------------------------------

  lemma FailResetInv(trace: seq<Event>, ids: seq<u32>, nv: Nv, o: Pending, ps: seq<Piece>)
    requires SyncInv(trace, ids, nv, o, ps)
    ensures SyncInv(trace, ids, FailReset(nv), NOTHING, []) && SameBackups(nv.parts, FailReset(nv).parts)
  {
  }

  lemma LoseInv(trace: seq<Event>, ids: seq<u32>, nv: Nv, o: Pending, ps: seq<Piece>)
    requires SyncInv(trace, ids, nv, o, ps)
    ensures SyncInv(trace, ids, Lose(nv), NOTHING, []) && SameBackups(nv.parts, Lose(nv).parts) && !Lose(nv).sync.busy
  {
    FailResetInv(trace, ids, nv, o, ps);
  }

  lemma HeadStep(trace: seq<Event>, ids: seq<u32>, nv: Nv, o: Pending, ps: seq<Piece>)
    returns (o': Pending, ps': seq<Piece>)
    requires SyncInv(trace, ids, nv, o, ps) && nv.buf != [] && nv.sync.state == 0
    ensures SyncInv(trace, ids, OnHead(nv), o', ps') && SameBackups(nv.parts, OnHead(nv).parts)
    ensures OnHead(nv).sync.busy ==> SameAts(ps', ps) && OnHead(nv).q == nv.q
  {
    if |nv.buf| < TOKEN {
      DropRest(trace, nv.q, nv.buf, ps);
      return o, ps;
    }
    var tok := nv.buf[..TOKEN];
    if Kind(tok) != HEAD || CtlId(nv.parts, PartId(tok)) == -1 {
      FailResetInv(trace, ids, nv, o, ps);
      return NOTHING, [];
    }
    FeedPacket(trace, nv.q, nv.buf, ps, TOKEN);
    HeadProgress(ids, nv, o, Bytes(ps));
    return Pending(tok, [], [], []), Feed(ps, tok);
  }

  lemma DataStep(trace: seq<Event>, ids: seq<u32>, nv: Nv, o: Pending, ps: seq<Piece>)
    returns (o': Pending, ps': seq<Piece>)
    requires SyncInv(trace, ids, nv, o, ps) && nv.buf != [] && nv.sync.state == 2
    ensures SyncInv(trace, ids, OnData(nv), o', ps') && SameBackups(nv.parts, OnData(nv).parts)
    ensures SameAts(ps', ps) && OnData(nv).q == nv.q
  {
    hide PiecesOk, PieceOk, Spent, Word32;
    var s, p := nv.sync, nv.parts[nv.sync.id];
    var n := Min(s.len, |nv.buf|);
    var x := nv.buf[..n];
    FeedPacket(trace, nv.q, nv.buf, ps, n);
    DataProgress(p, s, o, Bytes(ps), x);
    o', ps' := o.(data := o.data + x), Feed(ps, x);
    if s.len <= |nv.buf| {
      DataCloses(WriteData(p, s.start, x), s.(start := s.start + n, len := s.len - n), o', Bytes(ps'));
      o' := o'.(bodies := o.bodies + [Body(o'.tok, o'.data)]);
    }
  }

  /** `c` is what the pieces of the open request make, committed by the step behind `trace`. */
  ghost predicate ClosesHere(trace: seq<Event>, nv: Nv, ps: seq<Piece>, c: Commit) {
    SameAts(c.pieces, ps) && c.grp == nv.q.grp && c.end == |trace|
  }

  lemma TailCommits(trace: seq<Event>, ids: seq<u32>, nv: Nv, o: Pending, ps: seq<Piece>) returns (c: Commit)
    requires SyncInv(trace, ids, nv, o, ps) && nv.sync.state == 1 && |nv.buf| >= TOKEN
    requires Kind(nv.buf[..TOKEN]) == TAIL && Inc32(nv.sync.frame) == ReqIdx(nv.buf[..TOKEN])
    ensures CommitOk(trace, ids, nv.sync.id, c) && ClosesHere(trace, nv, ps, c)
    ensures Commits(nv.parts, SucReset(nv).parts, nv.sync.id, c)
    ensures SyncInv(trace, ids, SucReset(nv), NOTHING, [])
  {
    var tok := nv.buf[..TOKEN];
    FeedPacket(trace, nv.q, nv.buf, ps, TOKEN);
    NumberedNext(o.head, |o.bodies|);
    c := Commit(Request(o.head, o.bodies, tok), nv.q.grp, Feed(ps, tok), |trace|);
  }

  lemma BodyStep(trace: seq<Event>, ids: seq<u32>, nv: Nv, o: Pending, ps: seq<Piece>)
    returns (o': Pending, ps': seq<Piece>, c: Option<Commit>)
    requires SyncInv(trace, ids, nv, o, ps) && nv.buf != [] && nv.sync.state == 1 && OnBody(nv).Some?
    ensures SyncInv(trace, ids, OnBody(nv).value, o', ps')
    ensures c.None? ==> SameBackups(nv.parts, OnBody(nv).value.parts)
    ensures c.Some? ==> nv.sync.id >= 0 && CommitOk(trace, ids, nv.sync.id, c.value) && ClosesHere(trace, nv, ps, c.value)
                        && Commits(nv.parts, OnBody(nv).value.parts, nv.sync.id, c.value)
    ensures c.Some? ==> !OnBody(nv).value.sync.busy
    ensures OnBody(nv).value.sync.busy ==> SameAts(ps', ps) && OnBody(nv).value.q == nv.q
  {
    hide PiecesOk, PieceOk, Spent, Word32, CommitOk, Commits;
    c := None;
    if |nv.buf| < TOKEN {
      DropRest(trace, nv.q, nv.buf, ps);
      return o, ps, c;
    }
    var tok := nv.buf[..TOKEN];
    if Inc32(nv.sync.frame) != ReqIdx(tok) || (Kind(tok) != BODY && Kind(tok) != TAIL) {
      FailResetInv(trace, ids, nv, o, ps);
      return NOTHING, [], c;
    }
    if Kind(tok) == TAIL {
      var commit := TailCommits(trace, ids, nv, o, ps);
      return NOTHING, [], Some(commit);
    }
    FeedPacket(trace, nv.q, nv.buf, ps, TOKEN);
    BodyProgress(ids, nv, o, Bytes(ps));
    return o.(tok := tok, data := []), Feed(ps, tok), c;
  }

  lemma FirstPiece(trace: seq<Event>, raw: Raw)
    requires IsPacket(raw) && Sub(raw) == 0
    ensures PacketOk(trace + [Recv(raw)], Sequencer(Group(raw), 0), Payload(raw), [Piece(|trace|, [])])
    ensures Bytes([Piece(|trace|, [])]) == []
  {
  }

  lemma NextPiece(trace: seq<Event>, raw: Raw, q: Sequencer, ps: seq<Piece>)
    requires PacketOk(trace, q, [], ps) && IsPacket(raw) && Group(raw) == q.grp && Sub(raw) == Inc32(q.sub)
    ensures PacketOk(trace + [Recv(raw)], Sequencer(Group(raw), Sub(raw)), Payload(raw), ps + [Piece(|trace|, [])])
  {
    hide Word32, Payload, HasHeader;
    var trace', ps' := trace + [Recv(raw)], ps + [Piece(|trace|, [])];
    PiecesOkGrows(trace, Recv(raw), ps, q.grp);
    assert Inc32(Nth(|ps| - 1)) == Nth(|ps|);
    forall j | 0 <= j < |ps'| ensures PieceOk(trace', ps'[j], q.grp, Nth(j)) {
      if j < |ps| { assert PieceOk(trace', ps[j], q.grp, Nth(j)); }
    }
    forall j | 0 <= j < |ps'| - 1 ensures Spent(trace', ps'[j]) {
      if j < |ps| - 1 { assert Spent(trace', ps[j]); }
    }
    forall j, k | 0 <= j < k < |ps'| ensures ps'[j].at < ps'[k].at {
      assert PieceOk(trace, ps[j], q.grp, Nth(j));
    }
  }

  /** The event is a packet that the sequencer accepts. */
  predicate Takes(nv: Nv, e: Event) {
    e.Recv? && nv.buf == [] && (Classify(nv.q, e.raw).Start? || Classify(nv.q, e.raw).Continue?)
  }

  /** And one that starts a group. */
  predicate Starts(nv: Nv, e: Event) {
    Takes(nv, e) && Classify(nv.q, e.raw).Start?
  }

  /** How the pieces of the open request go on over one step: a packet that starts a group begins them anew,
      one that continues it joins them, and nothing else changes them. */
  ghost predicate Follows(trace: seq<Event>, e: Event, nv: Nv, ps: seq<Piece>, nv': Nv, ps': seq<Piece>) {
    if Starts(nv, e) then |ps'| == 1 && ps'[0].at == |trace|
    else
      && nv.sync.busy && nv'.q.grp == nv.q.grp
      && if Takes(nv, e) then |ps'| == |ps| + 1 && SameAts(ps'[..|ps|], ps) && ps'[|ps|].at == |trace|
         else SameAts(ps', ps)
  }

  lemma ReceiveStep(trace: seq<Event>, ids: seq<u32>, nv: Nv, raw: Raw, o: Pending, ps: seq<Piece>)
    returns (o': Pending, ps': seq<Piece>)
    requires SyncInv(trace, ids, nv, o, ps) && nv.buf == [] && Receive(nv, raw).Some?
    ensures SyncInv(trace + [Recv(raw)], ids, Receive(nv, raw).value, o', ps')
    ensures SameBackups(nv.parts, Receive(nv, raw).value.parts)
    ensures Receive(nv, raw).value.sync.busy ==> Follows(trace, Recv(raw), nv, ps, Receive(nv, raw).value, ps')
  {
    AcceptedInOrder(nv.q, raw);
    match Classify(nv.q, raw) {
      case Continue(body) =>
        o', ps' := o, ps + [Piece(|trace|, [])];
        if nv.sync.busy {
          NextPiece(trace, raw, nv.q, ps);
          assert ps'[..|ps|] == ps && Bytes(ps') == Bytes(ps);
        }
      case Start(body) =>
        o', ps' := NOTHING, [Piece(|trace|, [])];
        FirstPiece(trace, raw);
        if nv.sync.busy {
          var nv' := nv.(q := Advance(nv.q, raw));
          assert FailReset(nv') == FailReset(nv).(q := nv'.q);
          FailResetInv(trace, ids, nv, o, ps);
        }
      case Skip =>
        o', ps' := o, ps;
        if nv.sync.busy { PacketOkGrows(trace, Recv(raw), nv.q, nv.buf, ps); }
    }
  }

  lemma SyncInvGrows(trace: seq<Event>, e: Event, ids: seq<u32>, nv: Nv, o: Pending, ps: seq<Piece>)
    requires SyncInv(trace, ids, nv, o, ps)
    ensures SyncInv(trace + [e], ids, nv, o, ps)
  {
    if nv.sync.busy { PacketOkGrows(trace, e, nv.q, nv.buf, ps); }
  }

  lemma CommitOkGrows(trace: seq<Event>, e: Event, ids: seq<u32>, part: nat, c: Commit)
    requires CommitOk(trace, ids, part, c)
    ensures CommitOk(trace + [e], ids, part, c)
  {
    PiecesOkGrows(trace, e, c.pieces, c.grp);
  }

  /** What one step of the sync thread may have done. */
  ghost predicate Stepped(trace: seq<Event>, ids: seq<u32>, nv: Nv, e: Event, ps: seq<Piece>,
                          nv': Nv, ps': seq<Piece>, c: Option<Commit>) {
    && (c.None? ==> SameBackups(nv.parts, nv'.parts))
    && (c.Some? ==> e.Analyse? && nv.sync.busy && !nv'.sync.busy && nv.sync.id >= 0
                    && CommitOk(trace, ids, nv.sync.id, c.value) && ClosesHere(trace, nv, ps, c.value)
                    && Commits(nv.parts, nv'.parts, nv.sync.id, c.value))
    && (nv'.sync.busy ==> Follows(trace, e, nv, ps, nv', ps'))
  }

  lemma AnalyseStep(trace: seq<Event>, ids: seq<u32>, nv: Nv, o: Pending, ps: seq<Piece>)
    returns (o': Pending, ps': seq<Piece>, c: Option<Commit>)
    requires SyncInv(trace, ids, nv, o, ps) && nv.buf != [] && Iter(nv).Some?
    ensures SyncInv(trace, ids, Iter(nv).value, o', ps')
    ensures Stepped(trace, ids, nv, Analyse, ps, Iter(nv).value, ps', c)
  {
    hide PiecesOk, Spent, PieceOk, ProgressOk, OthersClean, CommitOk, Commits, SameBackups, IdsMatch;
    hide OnHead, OnBody, OnData;
    c := None;
    if nv.sync.state == 0 {
      o', ps' := HeadStep(trace, ids, nv, o, ps);
    } else if nv.sync.state == 1 {
      o', ps', c := BodyStep(trace, ids, nv, o, ps);
    } else {
      o', ps' := DataStep(trace, ids, nv, o, ps);
    }
  }

  /** Every step of the sync thread either leaves all committed images alone or commits, for one
      partition, exactly one complete request that arrived whole and in order in one group. */
  lemma SyncStepInv(trace: seq<Event>, ids: seq<u32>, nv: Nv, e: Event, o: Pending, ps: seq<Piece>)
    returns (o': Pending, ps': seq<Piece>, c: Option<Commit>)
    requires SyncInv(trace, ids, nv, o, ps) && SyncStep(nv, e).Some? && (e.Recv? || e.ChannelFails? || e.Analyse?)
    ensures SyncInv(trace + [e], ids, SyncStep(nv, e).value, o', ps')
    ensures Stepped(trace, ids, nv, e, ps, SyncStep(nv, e).value, ps', c)
  {
    hide PiecesOk, Spent, PieceOk, ProgressOk, OthersClean, CommitOk, Commits, IdsMatch;
    hide Iter, Lose, Receive;
    o', ps', c := o, ps, None;
    if e.Recv? && nv.buf == [] {
      o', ps' := ReceiveStep(trace, ids, nv, e.raw, o, ps);
    } else if e.ChannelFails? && nv.buf == [] {
      LoseInv(trace, ids, nv, o, ps);
      SyncInvGrows(trace, e, ids, Lose(nv), NOTHING, []);
      o', ps' := NOTHING, [];
    } else if e.Analyse? && nv.buf != [] {
      o', ps', c := AnalyseStep(trace, ids, nv, o, ps);
      SyncInvGrows(trace, e, ids, Iter(nv).value, o', ps');
    } else {
      SyncInvGrows(trace, e, ids, nv, o, ps);
    }
  }
}
