/** The request analyser of the NV-item daemon: head, bodies with their data, tail. */
module NvSync {
  import opened Words
  import opened NvBuffer
  import NvPacket

  /** `sizeof(SYNC_REQ)`: every token of a request is this long. */
  const TOKEN: nat := 20

  function Kind(tok: seq<u8>): u32 requires |tok| == TOKEN { Word32(tok, 0) }
  function ReqIdx(tok: seq<u8>): u32 requires |tok| == TOKEN { Word32(tok, 4) }
  function PartId(tok: seq<u8>): u32 requires |tok| == TOKEN { Word32(tok, 8) }
  function StartSector(tok: seq<u8>): u32 requires |tok| == TOKEN { Word32(tok, 12) }
  function SectorCount(tok: seq<u8>): u32 requires |tok| == TOKEN { Word32(tok, 16) }

  const HEAD: u32 := 0
  const BODY: u32 := 1
  const TAIL: u32 := 2

  /** `_syncState`, `_syncBusy`, `syncReqFrame`, `_id`, `_start` and `_len`. */
  datatype Sync = Sync(state: nat, busy: bool, frame: u32, id: int, start: nat, len: nat)

  const IDLE: Sync := Sync(0, false, 0, -1, 0, 0)

  /** The state of the sync thread; `buf` is what is left of the packet under analysis. */
  datatype Nv = Nv(q: NvPacket.Sequencer, sync: Sync, parts: seq<Part>, buf: seq<u8>) {
    predicate Valid() {
      && sync.state <= 2
      && (forall i :: 0 <= i < |parts| ==> parts[i].Valid())
      && (sync.state != 0 ==> sync.busy && 0 <= sync.id < |parts|)
      && (sync.state == 2 ==> sync.start + sync.len <= |parts[sync.id].fromChannel.image|)
      && (!sync.busy ==> sync == IDLE && buf == [])
    }
  }

  /** `getCtlId`: the first partition with that id, or -1. */
  function CtlId(parts: seq<Part>, partId: u32): (id: int)
    ensures -1 <= id < |parts|
    ensures id >= 0 ==> parts[id].partId == partId
    ensures forall j :: 0 <= j < (if id >= 0 then id else |parts|) ==> parts[j].partId != partId
  {
    CtlIdFrom(parts, partId, 0)
  }

  function CtlIdFrom(parts: seq<Part>, partId: u32, i: nat): (id: int)
    requires i <= |parts| && forall j :: 0 <= j < i ==> parts[j].partId != partId
    ensures id == -1 || i <= id < |parts|
    ensures id >= 0 ==> parts[id].partId == partId
    ensures forall j :: 0 <= j < (if id >= 0 then id else |parts|) ==> parts[j].partId != partId
    decreases |parts| - i
  {
    if i == |parts| then -1 else if parts[i].partId == partId then i else CtlIdFrom(parts, partId, i + 1)
  }

  /** `_syncReset(SYNC_FAIL_RESET)`; the rest of the packet is given up. */
  function FailReset(nv: Nv): (r: Nv)
    requires nv.Valid()
    ensures r.Valid()
  {
    var parts := if nv.sync.state == 0 then nv.parts else nv.parts[nv.sync.id := Restore(nv.parts[nv.sync.id])];
    nv.(sync := IDLE, parts := parts, buf := [])
  }

  /** `_syncReset(SYNC_SUC_RESET)` */
  function SucReset(nv: Nv): (r: Nv)
    requires nv.Valid() && nv.sync.state != 0
    ensures r.Valid()
  {
    nv.(sync := IDLE, parts := nv.parts[nv.sync.id := Backup(nv.parts[nv.sync.id])], buf := [])
  }

  /** `_syncGetHead` and the first branch of the loop in `syncAnalyzer`. */
  function OnHead(nv: Nv): (r: Nv)
    requires nv.Valid() && nv.sync.state == 0 && nv.sync.busy
    ensures r.Valid() && (nv.buf != [] ==> |r.buf| < |nv.buf|)
  {
    if |nv.buf| < TOKEN then nv.(buf := [])
    else
      var tok := nv.buf[..TOKEN];
      var id := CtlId(nv.parts, PartId(tok));
      if Kind(tok) != HEAD || id == -1 then FailReset(nv)
      else nv.(sync := nv.sync.(state := 1, frame := ReqIdx(tok), id := id), buf := nv.buf[TOKEN..])
  }

  /** A body the C code can store without leaving the partition's buffers. */
  predicate InRange(p: Part, tok: seq<u8>)
    requires |tok| == TOKEN
  {
    SectorCount(tok) >= 1 && StartSector(tok) + SectorCount(tok) <= p.sctNum
  }

  /** `_syncGetBody` and the second branch; `None` when the sectors announced lie outside the partition. */
  function OnBody(nv: Nv): (r: Option<Nv>)
    requires nv.Valid() && nv.sync.state == 1
    ensures r.Some? ==> r.value.Valid() && (nv.buf != [] ==> |r.value.buf| < |nv.buf|)
  {
    if |nv.buf| < TOKEN then Some(nv.(buf := []))
    else
      var tok := nv.buf[..TOKEN];
      var s, p := nv.sync, nv.parts[nv.sync.id];
      if Kind(tok) == BODY then
        if Inc32(s.frame) != ReqIdx(tok) then Some(FailReset(nv))
        else if !InRange(p, tok) then None
        else
          var s' := s.(state := 2, frame := Inc32(s.frame),
                       start := StartSector(tok) * SECTOR, len := SectorCount(tok) * SECTOR);
          Some(nv.(sync := s', buf := nv.buf[TOKEN..],
                   parts := nv.parts[s.id := MarkDirty(p, StartSector(tok), SectorCount(tok))]))
      else if Kind(tok) == TAIL then
        if Inc32(s.frame) != ReqIdx(tok) then Some(FailReset(nv)) else Some(SucReset(nv))
      else Some(FailReset(nv))
  }

  /** `_syncGetData` and the third branch. */
  function OnData(nv: Nv): (r: Nv)
    requires nv.Valid() && nv.sync.state == 2
    ensures r.Valid() && |r.buf| <= |nv.buf|
    ensures nv.buf != [] ==> |r.buf| < |nv.buf| || r.sync.state == 1
  {
    var s := nv.sync;
    var n := Min(s.len, |nv.buf|);
    var parts := nv.parts[s.id := WriteData(nv.parts[s.id], s.start, nv.buf[..n])];
    nv.(sync := s.(state := if s.len <= |nv.buf| then 1 else 2, start := s.start + n, len := s.len - n),
        parts := parts, buf := nv.buf[n..])
  }

  /** One round of the inner loop of `syncAnalyzer`. */
  function Iter(nv: Nv): (r: Option<Nv>)
    requires nv.Valid() && nv.buf != []
    ensures r.Some? ==> r.value.Valid()
    ensures r.Some? ==> |r.value.buf| < |nv.buf|
                        || (|r.value.buf| == |nv.buf| && nv.sync.state == 2 && r.value.sync.state == 1)
  {
    if nv.sync.state == 0 then Some(OnHead(nv))
    else if nv.sync.state == 1 then OnBody(nv)
    else Some(OnData(nv))
  }

  /** The inner loop, to the end of the packet. */
  function Analyze(nv: Nv): (r: Option<Nv>)
    requires nv.Valid()
    ensures r.Some? ==> r.value.Valid() && r.value.buf == []
    decreases |nv.buf|, nv.sync.state
  {
    if nv.buf == [] then Some(nv)
    else
      var r := Iter(nv);
      if r.None? then None else Analyze(r.value)
  }

  lemma AnalyzeStep(nv: Nv)
    requires nv.Valid() && nv.buf != []
    ensures nv.sync.state == 0 ==> Analyze(nv) == Analyze(OnHead(nv))
    ensures nv.sync.state == 1 ==> Analyze(nv) == if OnBody(nv).None? then None else Analyze(OnBody(nv).value)
    ensures nv.sync.state == 2 ==> Analyze(nv) == Analyze(OnData(nv))
  {
    hide OnHead, OnBody, OnData;
  }

  lemma AnalyzeEnd(nv: Nv)
    requires nv.Valid() && nv.buf == []
    ensures Analyze(nv) == Some(nv)
  {
  }

  lemma {:induction false} AnalyzeKeepsSequencer(nv: Nv)
    requires nv.Valid()
    ensures Analyze(nv).Some? ==> Analyze(nv).value.q == nv.q
    decreases |nv.buf|, nv.sync.state
  {
    if nv.buf != [] && Iter(nv).Some? { AnalyzeKeepsSequencer(Iter(nv).value); }
  }

  /** The part of the outer loop that looks at `_getPacket`'s verdict on `raw`. */
  function Receive(nv: Nv, raw: NvPacket.Raw): (r: Option<Nv>)
    requires nv.Valid() && nv.buf == []
    ensures r.Some? ==> r.value.Valid()
  {
    var nv' := nv.(q := NvPacket.Advance(nv.q, raw));
    match NvPacket.Classify(nv.q, raw)
    case Undefined => None
    case Skip => Some(nv')
    case Continue(body) =>
      if nv.sync.busy then Some(nv'.(buf := body)) else Some(nv')
    case Start(body) =>
      var clean := if nv.sync.busy then FailReset(nv') else nv';
      Some(clean.(sync := clean.sync.(busy := true), buf := body))
  }

  /** One whole round of the outer loop: a packet is received and analysed to its end. */
  function OnPacket(nv: Nv, raw: NvPacket.Raw): (r: Option<Nv>)
    requires nv.Valid() && nv.buf == []
    ensures r.Some? ==> r.value.Valid() && r.value.buf == []
  {
    var got := Receive(nv, raw);
    if got.None? then None else Analyze(got.value)
  }

  function OnPackets(nv: Nv, raws: seq<NvPacket.Raw>): (r: Option<Nv>)
    requires nv.Valid() && nv.buf == []
    ensures r.Some? ==> r.value.Valid() && r.value.buf == []
    decreases |raws|
  {
    if raws == [] then Some(nv)
    else
      var next := OnPacket(nv, raws[0]);
      if next.None? then None else OnPackets(next.value, raws[1..])
  }

  /** The channel failed: `syncAnalyzer` gives up the request and returns; the main loop
      reopens the channel and initialises the packet and sync modules again. */
  function Lose(nv: Nv): (r: Nv)
    requires nv.Valid()
    ensures r.Valid()
  {
    FailReset(nv).(q := NvPacket.INITIAL)
  }
}
