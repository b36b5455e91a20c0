/** The other end of the channel: requests and packets as the modem lays them out, byte by byte, and what becomes
    of them in the daemon. */
module NvWire {
  import opened Words
  import opened NvBuffer
  import opened NvSync
  import opened NvRequest
  import opened NvPacket
  import opened NvAtomicity
  import opened NvDelivery

  /** Sectors to be replaced, from sector `start` on. */
  datatype Block = Block(start: nat, data: seq<u8>)

  predicate BlockOk(b: Block, sctNum: nat) {
    b.data != [] && |b.data| % 512 == 0 && 512 * b.start + |b.data| <= 512 * sctNum
  }

  predicate BlocksOk(blocks: seq<Block>, sctNum: nat) {
    sctNum <= 1024 && forall i :: 0 <= i < |blocks| ==> BlockOk(blocks[i], sctNum)
  }

  /** The byte at `x` after the blocks have been stored over `image` in order: that of the last block that covers
      it, or the old one. */
  function ByteAfter(image: seq<u8>, blocks: seq<Block>, x: nat): u8
    requires x < |image|
  {
    if blocks == [] then image[x]
    else
      var n := |blocks| - 1;
      var b := blocks[n];
      if 512 * b.start <= x < 512 * b.start + |b.data| then b.data[x - 512 * b.start] else ByteAfter(image, blocks[..n], x)
  }

  /** A sector that some block covers. */
  predicate Covered(blocks: seq<Block>, k: nat) {
    exists i :: 0 <= i < |blocks| && blocks[i].start <= k && 512 * k < 512 * blocks[i].start + |blocks[i].data|
  }

  // ---- tokens and packets -----------------------------------------------------------------------

  /** Five words: what the token is, its number, and three more, of which not every kind uses all. */
  function Token(kind: u32, number: u32, x: u32, y: u32, z: u32): (t: seq<u8>)
    ensures |t| == 20
  {
    Bytes32(kind) + Bytes32(number) + Bytes32(x) + Bytes32(y) + Bytes32(z)
  }

  lemma FiveWords(a: u32, b: u32, c: u32, d: u32, e: u32, rest: seq<u8>)
    ensures var s := Token(a, b, c, d, e) + rest;
            && Word32(s, 0) == a && Word32(s, 4) == b && Word32(s, 8) == c && Word32(s, 12) == d && Word32(s, 16) == e
            && s[20..] == rest
  {
    hide Bytes32, Word32;
    var s := Token(a, b, c, d, e) + rest;
    WordAt([], a, s[4..]);
    WordAt(s[..4], b, s[8..]);
    WordAt(s[..8], c, s[12..]);
    WordAt(s[..12], d, s[16..]);
    WordAt(s[..16], e, s[20..]);
    assert s == [] + Bytes32(a) + s[4..] == s[..4] + Bytes32(b) + s[8..] == s[..8] + Bytes32(c) + s[12..];
    assert s == s[..12] + Bytes32(d) + s[16..] == s[..16] + Bytes32(e) + s[20..];
  }

  /** "RMNV", the check word nobody looks at, group, sub-index, the size of the body, and the body. */
  function Packet(ecc: u32, grp: u32, sub: u32, body: seq<u8>): (raw: Raw)
    requires |body| <= 1024
  {
    Token(0x524d4e56, ecc, grp, sub, |body|) + body
  }

  /** The packets of a group from sub-index `sub` on. */
  function Packets(ecc: u32, grp: u32, sub: u32, chunks: seq<seq<u8>>): (raws: seq<Raw>)
    requires forall k :: 0 <= k < |chunks| ==> |chunks[k]| <= 1024
    decreases |chunks|
  {
    if chunks == [] then []
    else [Packet(ecc, grp, sub, chunks[0])] + Packets(ecc, grp, (sub + 1) % 0x1_0000_0000, chunks[1..])
  }

  /** A packet laid out like this is one, whatever its check word: with its group, its sub-index and its body. */
  lemma PacketRead(ecc: u32, grp: u32, sub: u32, body: seq<u8>)
    requires |body| <= 1024
    ensures var raw := Packet(ecc, grp, sub, body);
            IsPacket(raw) && Group(raw) == grp && Sub(raw) == sub && NvPacket.Payload(raw) == body
  {
    hide Word32, Token;
    FiveWords(0x524d4e56, ecc, grp, sub, |body|, body);
  }

  lemma {:induction false} PacketsDeliver(r: Request, from: nat, ecc: u32, grp: u32, sub: u32, chunks: seq<seq<u8>>)
    requires forall k :: 0 <= k < |chunks| ==> |chunks[k]| <= 1024
    ensures Delivers(Sequencer(grp, sub), r, from, Packets(ecc, grp, (sub + 1) % 0x1_0000_0000, chunks), chunks)
    decreases |chunks|
  {
    if chunks != [] {
      hide IsPacket, Group, Sub, NvPacket.Payload, Packet, Classify;
      var next := (sub + 1) % 0x1_0000_0000;
      PacketRead(ecc, grp, next, chunks[0]);
      PacketsDeliver(r, from + |chunks[0]|, ecc, grp, next, chunks[1..]);
      var raws := Packets(ecc, grp, next, chunks);
      assert raws[0] == Packet(ecc, grp, next, chunks[0]) && raws[1..] == Packets(ecc, grp, (next + 1) % 0x1_0000_0000, chunks[1..]);
      assert Inc32(sub) == next && chunks[0][|chunks[0]|..] == [];
    }
  }

  // ---- requests ---------------------------------------------------------------------------------

  /** The body tokens, numbered from `number` on, each with the data of its block. */
  function Bodies(number: nat, unused: u32, blocks: seq<Block>): (bodies: seq<Body>)
    requires BlocksOk(blocks, 1024)
    ensures |bodies| == |blocks|
    ensures forall i :: 0 <= i < |blocks| ==> bodies[i] == BodyFor(number + i, unused, blocks[i])
  {
    var n := |blocks| - 1;
    if blocks == [] then [] else Bodies(number, unused, blocks[..n]) + [BodyFor(number + n, unused, blocks[n])]
  }

  function BodyFor(number: nat, unused: u32, b: Block): Body
    requires BlockOk(b, 1024)
  {
    Body(Token(1, number % 0x1_0000_0000, unused, b.start, |b.data| / 512), b.data)
  }

  /** The request that asks for `blocks` to be stored in partition `partId`, with its first token numbered `first`;
      `unused` stands in the words that the daemon does not look at. */
  function Encoded(partId: u32, first: u32, unused: u32, blocks: seq<Block>): Request
    requires BlocksOk(blocks, 1024)
  {
    Request(Token(0, first, partId, unused, unused),
            Bodies(first + 1, unused, blocks),
            Token(2, (first + |blocks| + 1) % 0x1_0000_0000, unused, unused, unused))
  }

  lemma TokenRead(kind: u32, number: u32, x: u32, y: u32, z: u32)
    ensures var t := Token(kind, number, x, y, z);
            |t| == TOKEN && Kind(t) == kind && ReqIdx(t) == number && PartId(t) == x && StartSector(t) == y && SectorCount(t) == z
  {
    hide Word32, Token;
    FiveWords(kind, number, x, y, z, []);
    assert Token(kind, number, x, y, z) + [] == Token(kind, number, x, y, z);
  }

  lemma BodyRead(number: nat, unused: u32, b: Block, sctNum: nat)
    requires BlockOk(b, sctNum) && sctNum <= 1024
    ensures var body := BodyFor(number, unused, b);
            && BodyOk(body, number % 0x1_0000_0000) && |body.tok| == TOKEN && body.data == b.data
            && StartSector(body.tok) == b.start && SectorCount(body.tok) * 512 == |b.data|
            && SectorCount(body.tok) >= 1 && StartSector(body.tok) + SectorCount(body.tok) <= sctNum
  {
    hide Word32, Token;
    TokenRead(1, number % 0x1_0000_0000, unused, b.start, |b.data| / 512);
  }

  lemma EncodedDeliverable(ids: seq<u32>, part: nat, sctNum: nat, first: u32, unused: u32, blocks: seq<Block>)
    requires part < |ids| && (forall j :: 0 <= j < part ==> ids[j] != ids[part]) && BlocksOk(blocks, sctNum)
    ensures Deliverable(ids, part, sctNum, Encoded(ids[part], first, unused, blocks))
  {
    hide Word32, Token, BodyFor, BodyOk;
    var r := Encoded(ids[part], first, unused, blocks);
    TokenRead(0, first, ids[part], unused, unused);
    TokenRead(2, (first + |blocks| + 1) % 0x1_0000_0000, unused, unused, unused);
    forall i | 0 <= i < |blocks|
      ensures BodyOk(r.bodies[i], Numbered(r.head, i + 1)) && |r.bodies[i].tok| == TOKEN
              && SectorCount(r.bodies[i].tok) >= 1 && StartSector(r.bodies[i].tok) + SectorCount(r.bodies[i].tok) <= sctNum
    {
      BodyRead(first + 1 + i, unused, blocks[i], sctNum);
      assert Numbered(r.head, i + 1) == (first + 1 + i) % 0x1_0000_0000;
    }
  }

  lemma BodiesLast(number: nat, unused: u32, blocks: seq<Block>)
    requires BlocksOk(blocks, 1024) && blocks != []
    ensures var n := |blocks| - 1;
            Bodies(number, unused, blocks) == Bodies(number, unused, blocks[..n]) + [BodyFor(number + n, unused, blocks[n])]
  {
  }

  lemma BodyStores(image: seq<u8>, number: nat, unused: u32, b: Block, sctNum: nat, x: nat)
    requires BlockOk(b, sctNum) && sctNum <= 1024 && |image| == 512 * sctNum && x < |image|
    ensures ApplyBody(image, BodyFor(number, unused, b))[x] ==
              if 512 * b.start <= x < 512 * b.start + |b.data| then b.data[x - 512 * b.start] else image[x]
  {
    hide Word32, Token, BodyFor;
    BodyRead(number, unused, b, sctNum);
  }

  /** The bodies of the request store exactly the blocks. */
  lemma {:induction false} BodiesStore(image: seq<u8>, number: nat, unused: u32, blocks: seq<Block>, sctNum: nat, x: nat)
    requires BlocksOk(blocks, sctNum) && |image| == 512 * sctNum && x < |image|
    ensures BlocksOk(blocks, 1024) && ApplyBodies(image, Bodies(number, unused, blocks))[x] == ByteAfter(image, blocks, x)
    decreases |blocks|
  {
    hide Word32, Token, BodyFor, ApplyBody, ApplyBodies, Bodies;
    if blocks == [] {
      NothingStored(image, number, unused);
    } else {
      var n := |blocks| - 1;
      var earlier, last := Bodies(number, unused, blocks[..n]), BodyFor(number + n, unused, blocks[n]);
      BodiesStore(image, number, unused, blocks[..n], sctNum, x);
      BodiesLast(number, unused, blocks);
      ApplyBodiesSnoc(image, earlier, last);
      BodyStores(ApplyBodies(image, earlier), number + n, unused, blocks[n], sctNum, x);
    }
  }

  lemma NothingStored(image: seq<u8>, number: nat, unused: u32)
    ensures ApplyBodies(image, Bodies(number, unused, [])) == image && Touched(Bodies(number, unused, [])) == {}
  {
  }

  /** The bodies of the request mark exactly the sectors of the blocks. */
  lemma {:induction false} BodiesTouch(number: nat, unused: u32, blocks: seq<Block>, k: nat)
    requires BlocksOk(blocks, 1024)
    ensures k in Touched(Bodies(number, unused, blocks)) <==> Covered(blocks, k)
    decreases |blocks|
  {
    hide Word32, Token, BodyFor, BodyOk, Bodies, Touched;
    if blocks == [] {
      NothingStored([], number, unused);
    } else {
      var n := |blocks| - 1;
      var last := BodyFor(number + n, unused, blocks[n]);
      BodiesTouch(number, unused, blocks[..n], k);
      BodiesLast(number, unused, blocks);
      BodyRead(number + n, unused, blocks[n], 1024);
      TouchedSnoc(Bodies(number, unused, blocks[..n]), last);
      assert k in Sectors(StartSector(last.tok), SectorCount(last.tok)) <==>
             blocks[n].start <= k && 512 * k < 512 * blocks[n].start + |blocks[n].data|;
      CoveredLast(blocks, k);
    }
  }

  lemma CoveredLast(blocks: seq<Block>, k: nat)
    requires blocks != []
    ensures var n := |blocks| - 1;
            Covered(blocks, k) <==>
              Covered(blocks[..n], k) || (blocks[n].start <= k && 512 * k < 512 * blocks[n].start + |blocks[n].data|)
  {
    var n := |blocks| - 1;
    if Covered(blocks[..n], k) {
      var i :| 0 <= i < n && blocks[..n][i].start <= k && 512 * k < 512 * blocks[..n][i].start + |blocks[..n][i].data|;
      assert blocks[i] == blocks[..n][i];
    }
    if Covered(blocks, k) {
      var i :| 0 <= i < |blocks| && blocks[i].start <= k && 512 * k < 512 * blocks[i].start + |blocks[i].data|;
      if i < n { assert blocks[..n][i] == blocks[i]; }
    }
  }

  // ---- from end to end --------------------------------------------------------------------------

  /** A request that is laid out and sent like this, under a new group, in any packets that do not split a token,
      is committed: every byte of the image is that of the last block that covers it, or what it was, the
      marks grow by exactly the sectors of the blocks, and no other partition changes. */
  lemma SentIsCommitted(ids: seq<u32>, part: nat, nv: Nv, first: u32, unused: u32, blocks: seq<Block>,
                        ecc: u32, grp: u32, chunks: seq<seq<u8>>)
    requires nv.Valid() && nv.buf == [] && IdsMatch(ids, nv.parts) && OthersClean(nv) && grp != nv.q.grp
    requires part < |ids| && (forall j :: 0 <= j < part ==> ids[j] != ids[part]) && BlocksOk(blocks, nv.parts[part].sctNum)
    requires forall k :: 0 <= k < |chunks| ==> |chunks[k]| <= 1024
    requires var r := Encoded(ids[part], first, unused, blocks); Concat(chunks) == Wire(r) && CutsOk(r, 0, chunks)
    ensures OnPackets(nv, Packets(ecc, grp, 0, chunks)).Some?
    ensures var end := OnPackets(nv, Packets(ecc, grp, 0, chunks)).value;
            && end.sync == IDLE && |end.parts| == |nv.parts|
            && (forall j :: 0 <= j < |nv.parts| && j != part ==> end.parts[j].backup == nv.parts[j].backup)
            && |end.parts[part].backup.image| == |nv.parts[part].backup.image|
            && (forall x :: 0 <= x < |nv.parts[part].backup.image| ==>
                  end.parts[part].backup.image[x] == ByteAfter(nv.parts[part].backup.image, blocks, x))
            && (forall k: nat :: k in end.parts[part].backup.dirty <==>
                  k in nv.parts[part].backup.dirty || k in ChannelMarks(nv, part) || Covered(blocks, k))
  {
    hide Arrives, CutsOk, Deliverable, Wire, Group, Packet, OnPackets, ApplyBodies, Touched,
         Covered, ByteAfter, ChannelMarks, Word32, Token;
    var r, p := Encoded(ids[part], first, unused, blocks), nv.parts[part];
    EncodedDeliverable(ids, part, p.sctNum, first, unused, blocks);
    SentArrives(ids[part], first, unused, blocks, ecc, grp, chunks);
    var raw, raws := Packet(ecc, grp, 0, chunks[0]), Packets(ecc, grp, 1, chunks[1..]);
    DeliveredRequestCommits(ids, part, r, nv, raw, raws, chunks);
    forall x | 0 <= x < |p.backup.image|
      ensures ApplyBodies(p.backup.image, r.bodies)[x] == ByteAfter(p.backup.image, blocks, x)
    {
      BodiesStore(p.backup.image, first + 1, unused, blocks, p.sctNum, x);
    }
    forall k: nat ensures k in Touched(r.bodies) <==> Covered(blocks, k) {
      BodiesTouch(first + 1, unused, blocks, k);
    }
  }

  /** The packets of a request that is sent arrive. */
  lemma SentArrives(partId: u32, first: u32, unused: u32, blocks: seq<Block>, ecc: u32, grp: u32, chunks: seq<seq<u8>>)
    requires BlocksOk(blocks, 1024) && forall k :: 0 <= k < |chunks| ==> |chunks[k]| <= 1024
    requires var r := Encoded(partId, first, unused, blocks); Concat(chunks) == Wire(r) && CutsOk(r, 0, chunks)
    ensures chunks != [] && Packets(ecc, grp, 0, chunks) == [Packet(ecc, grp, 0, chunks[0])] + Packets(ecc, grp, 1, chunks[1..])
    ensures Group(Packet(ecc, grp, 0, chunks[0])) == grp
    ensures Arrives(Encoded(partId, first, unused, blocks), Packet(ecc, grp, 0, chunks[0]), Packets(ecc, grp, 1, chunks[1..]), chunks)
  {
    hide Delivers, CutsOk, Wire, IsPacket, Group, Sub, NvPacket.Payload, Packet, Word32, Token;
    var r := Encoded(partId, first, unused, blocks);
    EncodedLengths(partId, first, unused, blocks);
    PacketRead(ecc, grp, 0, chunks[0]);
    PacketsDeliver(r, |chunks[0]|, ecc, grp, 0, chunks[1..]);
    assert chunks[0][|chunks[0]|..] == [];
  }

  lemma EncodedLengths(partId: u32, first: u32, unused: u32, blocks: seq<Block>)
    requires BlocksOk(blocks, 1024)
    ensures var r := Encoded(partId, first, unused, blocks);
            && |r.head| == 20 && |r.tail| == 20 && |r.bodies| == |blocks| && Wire(r) != []
            && r.bodies == Bodies(first + 1, unused, blocks)
            && forall j :: 0 <= j < |r.bodies| ==> |r.bodies[j].tok| == 20
  {
    hide Token;
  }

  // ---- one way to send a request ------------------------------------------------------------------

  /** `data` in pieces of a sector. */
  function Pieces(data: seq<u8>): (ps: seq<seq<u8>>)
    ensures Concat(ps) == data && forall k :: 0 <= k < |ps| ==> |ps[k]| <= 512
    decreases |data|
  {
    if |data| <= 512 then [data] else
      assert data == data[..512] + data[512..];
      [data[..512]] + Pieces(data[512..])
  }

  /** Every token and every sector of the request behind body `i` in a packet of its own. */
  function OneEach(r: Request, i: nat): (chunks: seq<seq<u8>>)
    requires i <= |r.bodies|
    decreases |r.bodies| - i
  {
    if i == |r.bodies| then [r.tail] else [r.bodies[i].tok] + Pieces(r.bodies[i].data) + OneEach(r, i + 1)
  }

  lemma {:induction false} ConcatTwo(a: seq<seq<u8>>, b: seq<seq<u8>>)
    ensures Concat(a + b) == Concat(a) + Concat(b)
    decreases |a|
  {
    if a == [] {
      assert a + b == b;
    } else {
      ConcatTwo(a[1..], b);
      assert (a + b)[1..] == a[1..] + b;
    }
  }

  lemma ConcatOne(c: seq<u8>)
    ensures Concat([c]) == c
  {
    assert Concat([c][1..]) == [];
  }

  lemma OneEachStep(r: Request, i: nat)
    requires i < |r.bodies|
    ensures var b := r.bodies[i];
            && OneEach(r, i) == [b.tok] + (Pieces(b.data) + OneEach(r, i + 1))
            && Concat(OneEach(r, i)) == b.tok + b.data + Concat(OneEach(r, i + 1))
  {
    hide Pieces, Concat;
    var b, rest := r.bodies[i], OneEach(r, i + 1);
    ConcatOne(b.tok);
    ConcatTwo([b.tok], Pieces(b.data) + rest);
    ConcatTwo(Pieces(b.data), rest);
    assert b.tok + (b.data + Concat(rest)) == b.tok + b.data + Concat(rest);
  }

  lemma {:induction false} OneEachIsAll(r: Request, i: nat)
    requires i <= |r.bodies|
    ensures TokenAt(r, i) <= |Wire(r)| && Concat(OneEach(r, i)) == Wire(r)[TokenAt(r, i)..]
    decreases |r.bodies| - i
  {
    hide Wire, TokenAt, Concat, Pieces;
    WireFrom(r, i);
    if i < |r.bodies| {
      var b := r.bodies[i];
      OneEachIsAll(r, i + 1);
      OneEachStep(r, i);
      var from := Wire(r)[TokenAt(r, i)..];
      assert from == (b.tok + b.data) + from[|b.tok + b.data|..];
    } else {
      ConcatOne(r.tail);
    }
  }

  lemma {:induction false} OneEachSmall(r: Request, i: nat)
    requires i <= |r.bodies| && |r.tail| == 20 && forall j :: 0 <= j < |r.bodies| ==> |r.bodies[j].tok| == 20
    ensures forall k :: 0 <= k < |OneEach(r, i)| ==> |OneEach(r, i)[k]| <= 1024
    decreases |r.bodies| - i
  {
    if i < |r.bodies| { OneEachSmall(r, i + 1); }
  }

  /** A packet may end anywhere in the data of a body, at its ends included. */
  lemma CutInside(r: Request, i: nat, e: nat)
    requires i < |r.bodies| && |r.head| == 20 && |r.bodies[i].tok| == 20
    requires TokenAt(r, i) + 20 <= e <= TokenAt(r, i + 1)
    ensures CutOk(r, e)
  {
    forall j | 0 <= j <= |r.bodies| ensures !(TokenAt(r, j) < e < TokenAt(r, j) + 20) {
      if j <= i { TokenAtGrows(r, j, i); } else { TokenAtGrows(r, i + 1, j); }
    }
  }

  lemma CutAtEnd(r: Request)
    requires |r.head| == 20 && |r.tail| == 20
    ensures CutOk(r, |Wire(r)|)
  {
    forall j | 0 <= j <= |r.bodies| ensures TokenAt(r, j) + 20 <= |Wire(r)| {
      WireFrom(r, j);
    }
  }

  lemma CutsCons(r: Request, from: nat, chunk: seq<u8>, rest: seq<seq<u8>>)
    requires CutOk(r, from + |chunk|) && CutsOk(r, from + |chunk|, rest)
    ensures CutsOk(r, from, [chunk] + rest)
  {
    hide CutOk;
    assert ([chunk] + rest)[1..] == rest;
  }

  lemma PiecesStep(data: seq<u8>, rest: seq<seq<u8>>)
    ensures Pieces(data) + rest ==
              if |data| <= 512 then [data] + rest else [data[..512]] + (Pieces(data[512..]) + rest)
  {
    hide Concat;
  }

  lemma {:induction false} PiecesCuts(r: Request, i: nat, off: nat, rest: seq<seq<u8>>)
    requires i < |r.bodies| && |r.head| == 20 && |r.bodies[i].tok| == 20 && off <= |r.bodies[i].data|
    requires CutsOk(r, TokenAt(r, i + 1), rest)
    ensures CutsOk(r, TokenAt(r, i) + 20 + off, Pieces(r.bodies[i].data[off..]) + rest)
    decreases |r.bodies[i].data| - off
  {
    hide CutOk, TokenAt, CutsOk, Pieces, Wire;
    WireFrom(r, i);
    var data, from := r.bodies[i].data[off..], TokenAt(r, i) + 20 + off;
    PiecesStep(data, rest);
    if |data| <= 512 {
      CutInside(r, i, from + |data|);
      CutsCons(r, from, data, rest);
    } else {
      CutInside(r, i, from + 512);
      PiecesCuts(r, i, off + 512, rest);
      assert data[512..] == r.bodies[i].data[off + 512..];
      CutsCons(r, from, data[..512], Pieces(data[512..]) + rest);
    }
  }

  lemma {:induction false} OneEachCuts(r: Request, i: nat)
    requires i <= |r.bodies| && |r.head| == 20 && |r.tail| == 20 && forall j :: 0 <= j < |r.bodies| ==> |r.bodies[j].tok| == 20
    ensures CutsOk(r, TokenAt(r, i), OneEach(r, i))
    decreases |r.bodies| - i
  {
    hide CutOk, TokenAt, Wire, Pieces, Concat;
    WireFrom(r, i);
    if i == |r.bodies| {
      CutAtEnd(r);
      assert TokenAt(r, i) + |r.tail| == |Wire(r)|;
    } else {
      var b, rest := r.bodies[i], OneEach(r, i + 1);
      OneEachCuts(r, i + 1);
      CutInside(r, i, TokenAt(r, i) + 20);
      PiecesCuts(r, i, 0, rest);
      assert b.data[0..] == b.data;
      OneEachStep(r, i);
      CutsCons(r, TokenAt(r, i), b.tok, Pieces(b.data) + rest);
    }
  }

  /** Every request can be sent: in packets of a token or a sector each, no token is split. */
  lemma CanBeSent(r: Request)
    requires |r.head| == 20 && |r.tail| == 20 && forall j :: 0 <= j < |r.bodies| ==> |r.bodies[j].tok| == 20
    ensures var chunks := [r.head] + OneEach(r, 0);
            && Concat(chunks) == Wire(r) && CutsOk(r, 0, chunks) && forall k :: 0 <= k < |chunks| ==> |chunks[k]| <= 1024
  {
    hide CutOk, Wire;
    var rest := OneEach(r, 0);
    var chunks := [r.head] + rest;
    OneEachIsAll(r, 0);
    OneEachSmall(r, 0);
    OneEachCuts(r, 0);
    HeadFirst(r);
    assert chunks[1..] == rest;
    assert Wire(r) == Wire(r)[..20] + Wire(r)[20..];
  }

  lemma HeadFirst(r: Request)
    requires |r.head| == 20
    ensures TokenAt(r, 0) == 20 && r.head <= Wire(r) && CutOk(r, 20)
  {
    assert r.bodies[..0] == [];
    forall j | 0 <= j <= |r.bodies| ensures 20 <= TokenAt(r, j) { TokenAtGrows(r, 0, j); }
  }
}
