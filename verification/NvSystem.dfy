/** The whole NV-item daemon as a step machine: the sync thread, the save thread, the two files of
    every partition, write failures, crashes and restarts, in any interleaving. */
module NvSystem {
  import opened Words
  import opened NvBuffer
  import opened NvSync
  import NvPacket
  import NvFs

  /** Where the save thread is inside `ramDisk_Write`. */
  datatype Stage = BeforeBak | InBak | BeforeOrigin | InOrigin | Written

  /** The save thread: waiting, at the loop head for a partition, past a positive `__ifHasDirty`,
      or writing a partition; `ok` is the value `ramDisk_Write` would return. */
  datatype Saver = Resting | At(id: nat) | Seen(id: nat) | Writing(id: nat, stage: Stage, ok: bool)

  /** `boot` partitions have been read since the last start. */
  datatype Sys = Sys(nv: Nv, saver: Saver, disks: seq<NvFs.Disk>, boot: nat) {
    predicate Valid() {
      && nv.Valid()
      && |disks| == |nv.parts| && boot <= |nv.parts|
      && ((saver.At? && saver.id <= |nv.parts|) || saver.Resting? || (!saver.At? && saver.id < |nv.parts|))
      && (boot < |nv.parts| ==> saver.Resting? && nv.sync == IDLE && nv.buf == [])
    }

    predicate Running() { boot == |nv.parts| }
  }

  datatype Event =
      // the sync thread
    | Recv(raw: NvPacket.Raw) | ChannelFails | Analyse
      // the save thread
    | Wake | Look(sees: bool) | Stage | Open(opens: bool) | Fill(head: nat, body: nat) | Conclude
      // the machine
    | Crash(cut: Option<nat>, order: bool) | BootRead(originFirst: bool, repair: NvFs.Io)

  function PartSize(p: Part): nat { SECTOR * p.sctNum }

  /** One step of the sync thread; `None` when the C code would leave its buffers.
      An event that cannot happen in the current state does nothing. */
  function SyncStep(nv: Nv, e: Event): (r: Option<Nv>)
    requires nv.Valid()
    ensures r.Some? ==> r.value.Valid() && |r.value.parts| == |nv.parts|
  {
    if e.Recv? && nv.buf == [] then Receive(nv, e.raw)
    else if e.ChannelFails? && nv.buf == [] then Some(Lose(nv))
    else if e.Analyse? && nv.buf != [] then Iter(nv)
    else Some(nv)
  }

  function SetPart(s: Sys, id: nat, p: Part): Sys
    requires id < |s.nv.parts|
  {
    s.(nv := s.nv.(parts := s.nv.parts[id := p]))
  }

  /** One step of `saveToDisk` and of the `ramDisk_Write` it calls. */
  function SaveStep(s: Sys, e: Event): (r: Sys)
    requires s.Valid() && s.Running()
    ensures r.Valid() && r.Running() && |r.nv.parts| == |s.nv.parts|
  {
    var parts, disks := s.nv.parts, s.disks;
    match s.saver
    case Resting => if e.Wake? then s.(saver := At(0)) else s
    case At(id) =>
      if !e.Look? then s
      else if id == |parts| then s.(saver := Resting)
      else if !e.sees then s.(saver := At(id + 1))
      else if parts[id].backup.dirty != {} then s.(saver := Seen(id))
      else s
    case Seen(id) =>
      if e.Stage? then SetPart(s, id, GetData(parts[id])).(saver := Writing(id, BeforeBak, true)) else s
    case Writing(id, stage, ok) =>
      var image := parts[id].toDisk.image;
      match stage
      case BeforeBak =>
        if !e.Open? then s
        else if e.opens then s.(disks := disks[id := disks[id].(bak := Some([]))], saver := s.saver.(stage := InBak))
        else s.(saver := s.saver.(stage := BeforeOrigin))
      case InBak =>
        if !e.Fill? then s
        else
          var io := NvFs.Writes(e.head, e.body);
          s.(disks := disks[id := disks[id].(bak := NvFs.Put(disks[id].bak, image, io))],
             saver := Writing(id, BeforeOrigin, ok && NvFs.Reported(io, |image|)))
      case BeforeOrigin =>
        if !e.Open? then s
        else if e.opens then s.(disks := disks[id := disks[id].(origin := Some([]))], saver := s.saver.(stage := InOrigin))
        else s.(saver := s.saver.(stage := Written))
      case InOrigin =>
        if !e.Fill? then s
        else
          var io := NvFs.Writes(e.head, e.body);
          s.(disks := disks[id := disks[id].(origin := NvFs.Put(disks[id].origin, image, io))],
             saver := Writing(id, Written, ok && NvFs.Reported(io, |image|)))
      case Written =>
        if !e.Conclude? then s
        else (if ok then SetPart(s, id, Saved(parts[id])) else s).(saver := At(id + 1))
  }

  /** The first `cut` bytes of a file. */
  function Torn(whole: seq<u8>, cut: nat): NvFs.File {
    Some(whole[..Min(cut, |whole|)])
  }

  /** What a crash leaves of the disk of partition `i`: a prefix of the file that was being written,
      by the save thread or by the repair at the end of `ramDisk_Read` during start-up. */
  function DiskAfterCrash(s: Sys, i: nat, cut: Option<nat>, order: bool): NvFs.Disk
    requires s.Valid() && i < |s.disks|
  {
    var d, p := s.disks[i], s.nv.parts[i];
    if cut.None? then d
    else if s.saver.Writing? && s.saver.id == i && s.saver.stage == InBak then
      d.(bak := Torn(NvFs.Copy(p.toDisk.image), cut.value))
    else if s.saver.Writing? && s.saver.id == i && s.saver.stage == InOrigin then
      d.(origin := Torn(NvFs.Copy(p.toDisk.image), cut.value))
    else if s.boot == i then
      var header := NvFs.Repair(d, PartSize(p), order);
      if header.None? then d
      else NvFs.SetFirst(d, order, Torn(header.value + NvFs.Found(d, PartSize(p), order), cut.value))
    else d
  }

  /** Memory is lost; what the buffers hold until they are read again does not matter. */
  function Blank(p: Part): Part {
    Loaded(p.partId, p.sctNum, NvFs.Filled(PartSize(p), 0))
  }

  function CrashStep(s: Sys, cut: Option<nat>, order: bool): (r: Sys)
    requires s.Valid()
    ensures r.Valid()
  {
    var n := |s.nv.parts|;
    var parts := seq(n, i requires 0 <= i < n => Blank(s.nv.parts[i]));
    var disks := seq(n, i requires 0 <= i < n => DiskAfterCrash(s, i, cut, order));
    Sys(Nv(NvPacket.INITIAL, IDLE, parts, []), Resting, disks, 0)
  }

  /** `initBuf` reads the next partition; `repair` is what becomes of the file it may write. */
  function BootStep(s: Sys, originFirst: bool, repair: NvFs.Io): (r: Sys)
    requires s.Valid() && !s.Running()
    ensures r.Valid()
  {
    var i := s.boot;
    var p := s.nv.parts[i];
    var (d, image) := NvFs.Read(s.disks[i], PartSize(p), originFirst, repair);
    SetPart(s, i, Loaded(p.partId, p.sctNum, image)).(disks := s.disks[i := d], boot := i + 1)
  }

  function Step(s: Sys, e: Event): (r: Option<Sys>)
    requires s.Valid()
    ensures r.Some? ==> r.value.Valid() && |r.value.nv.parts| == |s.nv.parts|
  {
    if e.Crash? then Some(CrashStep(s, e.cut, e.order))
    else if !s.Running() then Some(if e.BootRead? then BootStep(s, e.originFirst, e.repair) else s)
    else if e.Recv? || e.ChannelFails? || e.Analyse? then
      var r := SyncStep(s.nv, e);
      if r.None? then None else Some(s.(nv := r.value))
    else Some(SaveStep(s, e))
  }

  /** The state after a run; `None` when some step left the C code's buffers. */
  function Run(s: Sys, trace: seq<Event>): (r: Option<Sys>)
    requires s.Valid()
    ensures r.Some? ==> r.value.Valid() && |r.value.nv.parts| == |s.nv.parts|
  {
    if trace == [] then Some(s)
    else
      var before := Run(s, trace[..|trace| - 1]);
      if before.None? then None else Step(before.value, trace[|trace| - 1])
  }

  lemma RunNothing(s: Sys)
    requires s.Valid()
    ensures Run(s, []) == Some(s)
  {
  }

  /** The token at the cursor is the body that the open request expects, and announces no sectors, for which the
      code shifts by 32, or sectors that its partition does not have. */
  predicate BodyOutside(nv: Nv)
    requires nv.Valid()
  {
    && nv.sync.state == 1 && |nv.buf| >= TOKEN
    && var tok := nv.buf[..TOKEN];
       Kind(tok) == BODY && ReqIdx(tok) == Inc32(nv.sync.frame) && !InRange(nv.parts[nv.sync.id], tok)
  }

  /** Exactly at which steps the C code is about to leave what it may do: the reception of a packet whose size
      field wraps, and the analysis of such a body. */
  lemma LeavesIff(s: Sys, e: Event)
    requires s.Valid()
    ensures Step(s, e).None? <==>
              s.Running()
              && (|| (e.Recv? && s.nv.buf == [] && NvPacket.HasHeader(e.raw)
                      && NvPacket.Size(e.raw) >= 0x1_0000_0000 - NvPacket.HEADER_SIZE)
                  || (e.Analyse? && s.nv.buf != [] && BodyOutside(s.nv)))
  {
    hide NvPacket.Classify, SaveStep, BootStep, CrashStep, Word32;
    if e.Recv? {
      NvPacket.AcceptedInOrder(s.nv.q, e.raw);
    }
  }
}
