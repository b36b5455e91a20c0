/** Durability of committed data under every interleaving of the sync and the save thread. */
module NvDurability {
  import opened Words
  import opened NvBuffer
  import opened NvSync
  import opened NvSystem
  import NvPacket
  import NvFs

  // ---- the sync thread ------------------------------------------------------------------

  /** The sectors still to be filled by the body under way are marked. */
  ghost predicate Window(nv: Nv) {
    nv.sync.state == 2 && 0 <= nv.sync.id < |nv.parts| ==>
      Marked(nv.parts[nv.sync.id].fromChannel.dirty, nv.sync.start, nv.sync.len)
  }

  ghost predicate AllTracked(nv: Nv) {
    (forall i :: 0 <= i < |nv.parts| ==> Tracked(nv.parts[i])) && Window(nv)
  }

  /** What the save thread may rely on while the sync thread moves. */
  ghost predicate SyncOnly(p: Part, q: Part) {
    q.toDisk == p.toDisk && p.backup.dirty <= q.backup.dirty && q.partId == p.partId && q.sctNum == p.sctNum
  }

  ghost predicate AllSyncOnly(a: seq<Part>, b: seq<Part>) {
    |a| == |b| && forall i :: 0 <= i < |a| ==> SyncOnly(a[i], b[i])
  }

  /** The sync thread leaves the staging copies and the marks of the committed ones alone. */
  lemma SyncTouches(nv: Nv, e: Event)
    requires nv.Valid()
    ensures SyncStep(nv, e).Some? ==> AllSyncOnly(nv.parts, SyncStep(nv, e).value.parts)
  {
    hide Word32;
  }

  lemma FailResetKeeps(nv: Nv)
    requires nv.Valid() && AllTracked(nv)
    ensures AllTracked(FailReset(nv))
  {
  }

  lemma SucResetKeeps(nv: Nv)
    requires nv.Valid() && nv.sync.state != 0 && AllTracked(nv)
    ensures AllTracked(SucReset(nv))
  {
    BackupTracked(nv.parts[nv.sync.id]);
  }

  lemma OnBodyKeeps(nv: Nv)
    requires nv.Valid() && nv.sync.state == 1 && AllTracked(nv)
    ensures OnBody(nv).Some? ==> AllTracked(OnBody(nv).value)
  {
    FailResetKeeps(nv);
    SucResetKeeps(nv);
    if OnBody(nv).Some? && OnBody(nv).value.sync.state == 2 {
      var tok := nv.buf[..TOKEN];
      var q := OnBody(nv).value.parts[nv.sync.id];
      assert forall k :: k in Sectors(StartSector(tok), SectorCount(tok)) ==> k in q.fromChannel.dirty;
      assert Tracked(q);
    }
  }

  lemma OnDataKeeps(nv: Nv)
    requires nv.Valid() && nv.sync.state == 2 && AllTracked(nv)
    ensures AllTracked(OnData(nv))
  {
    var n := Min(nv.sync.len, |nv.buf|);
    WriteTracked(nv.parts[nv.sync.id], nv.sync.start, nv.buf[..n]);
  }

  lemma SyncKeeps(nv: Nv, e: Event)
    requires nv.Valid() && AllTracked(nv)
    ensures SyncStep(nv, e).Some? ==> AllTracked(SyncStep(nv, e).value)
  {
    hide Tracked, Word32;
    FailResetKeeps(nv);
    if e.Analyse? && nv.buf != [] && nv.sync.state == 1 { OnBodyKeeps(nv); }
    if e.Analyse? && nv.buf != [] && nv.sync.state == 2 { OnDataKeeps(nv); }
    if e.Recv? && nv.buf == [] {
      var nv' := nv.(q := NvPacket.Advance(nv.q, e.raw));
      FailResetKeeps(nv');
    }
  }

  // ---- the save thread and the disk -----------------------------------------------------

  predicate SavingPart(s: Sys, i: nat) {
    s.saver.Writing? && s.saver.id == i
  }

  /** The disk of partition `i` holds its staged image. */
  ghost predicate StagedOnDisk(s: Sys, i: nat)
    requires s.Valid() && i < |s.nv.parts|
  {
    var p, d := s.nv.parts[i], s.disks[i];
    NvFs.HasValid(d, PartSize(p)) && NvFs.Stored(d, PartSize(p)) == p.toDisk.image
  }

  /** Partition `i` is tracked, a partition seen or being written is marked as such, and a
      partition without marks in its staging copy has exactly that copy on the disk. */
  ghost predicate PartOk(s: Sys, i: nat)
    requires s.Valid() && i < |s.nv.parts|
  {
    var p := s.nv.parts[i];
    && Tracked(p)
    && (s.saver.Seen? && s.saver.id == i ==> p.backup.dirty != {})
    && (SavingPart(s, i) ==> p.toDisk.dirty != {})
    && (SavingPart(s, i) && s.saver.stage == Written && s.saver.ok ==> StagedOnDisk(s, i))
    && (i < s.boot && p.toDisk.dirty == {} ==> StagedOnDisk(s, i))
  }

  ghost predicate AllPartsOk(s: Sys) {
    s.Valid() && Window(s.nv) && forall i :: 0 <= i < |s.nv.parts| ==> PartOk(s, i)
  }

  /** A start-up read in the documented order, or a harmless one in the other. */
  ghost predicate Orderly(s: Sys, e: Event)
    requires s.Valid()
  {
    e.BootRead? && !s.Running() && !e.originFirst ==> NvFs.Harmless(s.disks[s.boot], PartSize(s.nv.parts[s.boot]))
  }

  /** An origin file that does not open at the end of a write that is going to be reported as done is not
      needed, because the disk holds the image already; and a start-up read finds a valid copy, and
      is in order. */
  ghost predicate Sound(s: Sys, e: Event)
    requires s.Valid()
  {
    && (e.Open? && !e.opens && s.saver.Writing? && s.saver.stage == BeforeOrigin && s.saver.ok ==>
          StagedOnDisk(s, s.saver.id))
    && (e.BootRead? && !s.Running() ==> NvFs.HasValid(s.disks[s.boot], PartSize(s.nv.parts[s.boot])))
    && Orderly(s, e)
  }

  /** The origin file is truncated only while the backup copy is not valid, or holds the new image, or agrees
      with the origin copy; and no crash during start-up leaves a repair made without a valid copy. */
  ghost predicate Safe(s: Sys, e: Event)
    requires s.Valid()
  {
    && (e.Open? && e.opens && s.saver.Writing? && s.saver.stage == BeforeOrigin ==>
          var d, p := s.disks[s.saver.id], s.nv.parts[s.saver.id];
          var size := PartSize(p);
          NvFs.CopyValid(d.origin, size) && NvFs.CopyValid(d.bak, size) ==>
            NvFs.Payload(d.bak, size) == p.toDisk.image || NvFs.Payload(d.bak, size) == NvFs.Payload(d.origin, size))
    && (e.Crash? && !s.Running() ==>
          var d, size := s.disks[s.boot], PartSize(s.nv.parts[s.boot]);
          NvFs.HasValid(d, size) || NvFs.Repair(d, size, e.order).None?)
  }

  /** If the origin file does not open at the end of a write that is going to be reported as done, the marks
      are cleared, and the disk holds the image exactly if that was sound. */
  lemma SoundExactly(s: Sys)
    requires s.Valid() && s.Running() && s.saver.Writing? && s.saver.stage == BeforeOrigin && s.saver.ok
    ensures var i, s' := s.saver.id, SaveStep(SaveStep(s, Open(false)), Conclude);
            && s'.nv.parts[i].toDisk == Buf(s.nv.parts[i].toDisk.image, {})
            && (StagedOnDisk(s', i) <==> Sound(s, Open(false)))
  {
    hide NvFs.HasValid, NvFs.Stored, NvFs.Put;
  }

  /** If the machine stops when a valid origin file has just been truncated under a valid backup copy, the next
      start finds the old image or the new one, in either order, exactly if that was safe. */
  lemma SafeExactly(s: Sys, order: bool, originFirst: bool)
    requires s.Valid() && s.Running() && s.saver.Writing? && s.saver.stage == BeforeOrigin
    requires var d, size := s.disks[s.saver.id], PartSize(s.nv.parts[s.saver.id]);
             NvFs.CopyValid(d.origin, size) && NvFs.CopyValid(d.bak, size)
    ensures var i := s.saver.id;
            var d, p, size := s.disks[i], s.nv.parts[i], PartSize(s.nv.parts[i]);
            var d' := CrashStep(SaveStep(s, Open(true)), None, order).disks[i];
            NvFs.Found(d', size, originFirst) in {NvFs.Payload(d.origin, size), p.toDisk.image} <==> Safe(s, Open(true))
  {
    hide NvFs.EccOk, NvFs.Found, NvFs.Repair, NvFs.Put;
    var i := s.saver.id;
    var d' := CrashStep(SaveStep(s, Open(true)), None, order).disks[i];
    assert d' == s.disks[i].(origin := Some([]));
    NvFs.FoundValid(d', PartSize(s.nv.parts[i]), originFirst);
  }

  /** Files open, and no write is cut short but by a crash. */
  predicate Whole(e: Event) {
    && (e.Open? ==> e.opens)
    && (e.Fill? ==> e.head >= NvFs.HEAD && e.body >= SECTOR * MAX_SECTORS)
    && (e.BootRead? ==> e.repair.Writes? && e.repair.head >= NvFs.HEAD && e.repair.body >= SECTOR * MAX_SECTORS)
  }

  lemma SaveKeepsPart(s: Sys, e: Event, i: nat)
    requires s.Valid() && s.Running() && i < |s.nv.parts| && PartOk(s, i) && Sound(s, e)
    ensures PartOk(SaveStep(s, e), i)
  {
    hide NvFs.Put, NvFs.Reported, NvFs.CopyValid;
    if s.saver.Writing? && s.saver.id == i && s.saver.stage == InOrigin && e.Fill? {
      NvFs.PutValidity(s.disks[i].origin, s.nv.parts[i].toDisk.image, NvFs.Writes(e.head, e.body));
    }
  }

  lemma SaveKeepsWindow(s: Sys, e: Event)
    requires s.Valid() && s.Running() && Window(s.nv)
    ensures Window(SaveStep(s, e).nv)
  {
  }

  lemma BootKeeps(s: Sys, e: Event)
    requires AllPartsOk(s) && !s.Running() && e.BootRead? && Sound(s, e)
    ensures AllPartsOk(BootStep(s, e.originFirst, e.repair))
  {
    hide NvFs.Read, NvFs.HasValid, NvFs.Stored, NvFs.Harmless;
    NvFs.ReadSettles(s.disks[s.boot], PartSize(s.nv.parts[s.boot]), e.originFirst, e.repair);
    forall i | 0 <= i < |s.nv.parts| ensures PartOk(BootStep(s, e.originFirst, e.repair), i) { assert PartOk(s, i); }
  }

  lemma CrashKeeps(s: Sys, cut: Option<nat>, order: bool)
    requires s.Valid()
    ensures AllPartsOk(CrashStep(s, cut, order))
  {
    hide DiskAfterCrash, NvFs.HasValid, NvFs.Stored;
  }

  /** Every sound step keeps the invariant: crashes, short writes and files that do not open included. */
  lemma StepKeeps(s: Sys, e: Event)
    requires AllPartsOk(s) && Sound(s, e)
    ensures Step(s, e).Some? ==> AllPartsOk(Step(s, e).value)
  {
    hide NvFs.HasValid, NvFs.Stored, Sound, SyncStep, SaveStep, CrashStep, BootStep;
    if e.Crash? {
      CrashKeeps(s, e.cut, e.order);
    } else if !s.Running() {
      if e.BootRead? { BootKeeps(s, e); }
    } else if e.Recv? || e.ChannelFails? || e.Analyse? {
      if SyncStep(s.nv, e).Some? { SyncKeepsParts(s, e); }
    } else {
      SaveKeepsWindow(s, e);
      forall i | 0 <= i < |s.nv.parts| ensures PartOk(SaveStep(s, e), i) { SaveKeepsPart(s, e, i); }
    }
  }

  lemma SyncKeepsParts(s: Sys, e: Event)
    requires AllPartsOk(s) && s.Running() && SyncStep(s.nv, e).Some?
    ensures AllPartsOk(s.(nv := SyncStep(s.nv, e).value))
  {
    hide NvFs.HasValid, NvFs.Stored, SyncStep, Tracked;
    forall i | 0 <= i < |s.nv.parts| ensures Tracked(s.nv.parts[i]) { assert PartOk(s, i); }
    SyncKeeps(s.nv, e);
    SyncTouches(s.nv, e);
    var s' := s.(nv := SyncStep(s.nv, e).value);
    forall i | 0 <= i < |s.nv.parts| ensures PartOk(s', i) {
      assert PartOk(s, i) && SyncOnly(s.nv.parts[i], s'.nv.parts[i]);
    }
  }

  // ---- crashes, when nothing else fails ---------------------------------------------------

  /** While writes are not cut short, at least one copy of partition `i` is valid at every moment:
      the origin file unless it is being rewritten, and then the backup file with the new image. */
  ghost predicate DiskOk(s: Sys, i: nat)
    requires s.Valid() && i < |s.nv.parts|
  {
    var p, d := s.nv.parts[i], s.disks[i];
    var size := PartSize(p);
    && NvFs.HasValid(d, size)
    && (i < s.boot && !(SavingPart(s, i) && s.saver.stage == InOrigin) ==> NvFs.CopyValid(d.origin, size))
    && (SavingPart(s, i) ==> s.saver.ok)
    && (SavingPart(s, i) && s.saver.stage == InOrigin ==> d.origin == Some([]))
    && (SavingPart(s, i) && s.saver.stage in {BeforeOrigin, InOrigin, Written} ==>
          NvFs.CopyValid(d.bak, size) && NvFs.Payload(d.bak, size) == p.toDisk.image)
  }

  ghost predicate AllDisksOk(s: Sys) {
    s.Valid() && forall i :: 0 <= i < |s.nv.parts| ==> DiskOk(s, i)
  }

  lemma SaveKeepsDisk(s: Sys, e: Event, i: nat)
    requires s.Valid() && s.Running() && i < |s.nv.parts| && DiskOk(s, i) && Whole(e)
    ensures DiskOk(SaveStep(s, e), i)
  {
    if s.saver.Writing? && s.saver.id == i && e.Fill? {
      var image, io := s.nv.parts[i].toDisk.image, NvFs.Writes(e.head, e.body);
      assert |image| <= SECTOR * MAX_SECTORS;
      NvFs.PutValidity(s.disks[i].bak, image, io);
      NvFs.PutValidity(s.disks[i].origin, image, io);
    }
  }

  /** A torn file is valid only if it is whole, and then it holds the image that was being written. */
  lemma TornValidity(image: seq<u8>, cut: nat)
    ensures var f := Torn(NvFs.Copy(image), cut);
            NvFs.CopyValid(f, |image|) ==> NvFs.Payload(f, |image|) == image
  {
    NvFs.PrefixValidity(image, Min(cut, |NvFs.Copy(image)|));
  }

  /** A repair cut short, in either order, leaves the other copy, and never a valid copy of anything
      else. */
  lemma TornRepair(d: NvFs.Disk, size: nat, order: bool, cut: nat)
    requires NvFs.HasValid(d, size) && NvFs.Repair(d, size, order).Some?
    ensures var bytes := NvFs.Repair(d, size, order).value + NvFs.Found(d, size, order);
            var t := NvFs.SetFirst(d, order, Torn(bytes, cut));
            NvFs.HasValid(t, size) && NvFs.Stored(t, size) == NvFs.Stored(d, size)
  {
    hide NvFs.Found, NvFs.Repair, NvFs.EccOk;
    NvFs.FoundValid(d, size, order);
    TornBytes(NvFs.Repair(d, size, order).value, NvFs.Found(d, size, order), cut);
  }

  /** A torn file is valid only with all of its payload. */
  lemma TornBytes(header: seq<u8>, payload: seq<u8>, cut: nat)
    requires |header| == NvFs.HEAD
    ensures var f := Torn(header + payload, cut);
            NvFs.CopyValid(f, |payload|) ==> NvFs.Payload(f, |payload|) == payload
  {
    hide NvFs.EccOk;
    var whole := header + payload;
    if cut >= |whole| {
      assert whole[..|whole|] == whole && whole[NvFs.HEAD..] == payload;
    }
  }

  /** What partition `i` has on the disk after a crash: what it had, or the image whose origin
      file was being written, which is then already complete in the backup file. */
  lemma CrashKeepsDisk(s: Sys, cut: Option<nat>, order: bool, i: nat)
    requires s.Valid() && i < |s.nv.parts| && DiskOk(s, i)
    ensures var d, size := DiskAfterCrash(s, i, cut, order), PartSize(s.nv.parts[i]);
            NvFs.HasValid(d, size) && NvFs.Stored(d, size) == NvFs.Stored(s.disks[i], size)
  {
    hide NvFs.Repair, NvFs.Found, NvFs.Copy, NvFs.EccOk;
    var d, p := s.disks[i], s.nv.parts[i];
    if cut.Some? {
      if SavingPart(s, i) && s.saver.stage in {InBak, InOrigin} {
        TornValidity(p.toDisk.image, cut.value);
      } else if s.boot == i && NvFs.Repair(d, PartSize(p), order).Some? {
        TornRepair(d, PartSize(p), order, cut.value);
      }
    }
  }

  lemma CrashKeepsDisks(s: Sys, cut: Option<nat>, order: bool)
    requires AllDisksOk(s)
    ensures AllDisksOk(CrashStep(s, cut, order))
  {
    hide DiskAfterCrash, NvFs.HasValid, NvFs.Stored;
    var s' := CrashStep(s, cut, order);
    forall i | 0 <= i < |s.nv.parts| ensures DiskOk(s', i) {
      assert DiskOk(s, i);
      CrashKeepsDisk(s, cut, order, i);
    }
  }

  lemma BootKeepsDisks(s: Sys, e: Event)
    requires AllDisksOk(s) && !s.Running() && e.BootRead? && Orderly(s, e) && Whole(e)
    ensures AllDisksOk(BootStep(s, e.originFirst, e.repair))
  {
    hide NvFs.Read, NvFs.HasValid, NvFs.Stored, NvFs.Harmless;
    assert DiskOk(s, s.boot);
    NvFs.ReadSettles(s.disks[s.boot], PartSize(s.nv.parts[s.boot]), e.originFirst, e.repair);
    forall i | 0 <= i < |s.nv.parts| ensures DiskOk(BootStep(s, e.originFirst, e.repair), i) { assert DiskOk(s, i); }
  }

  lemma SyncKeepsDisks(s: Sys, e: Event)
    requires AllDisksOk(s) && s.Running() && (e.Recv? || e.ChannelFails? || e.Analyse?)
    ensures Step(s, e).Some? ==> AllDisksOk(Step(s, e).value)
  {
    SyncTouches(s.nv, e);
    if Step(s, e).Some? {
      forall i | 0 <= i < |s.nv.parts| ensures DiskOk(Step(s, e).value, i) {
        assert DiskOk(s, i) && SyncOnly(s.nv.parts[i], Step(s, e).value.nv.parts[i]);
      }
    }
  }

  /** Every step keeps a valid copy of every partition, crashes included, while nothing else fails. */
  lemma StepKeepsDisks(s: Sys, e: Event)
    requires AllDisksOk(s) && Orderly(s, e) && Whole(e)
    ensures Step(s, e).Some? ==> AllDisksOk(Step(s, e).value)
  {
    if e.Crash? {
      CrashKeepsDisks(s, e.cut, e.order);
    } else if !s.Running() {
      if e.BootRead? { BootKeepsDisks(s, e); }
    } else if e.Recv? || e.ChannelFails? || e.Analyse? {
      SyncKeepsDisks(s, e);
    } else {
      forall i | 0 <= i < |s.nv.parts| ensures DiskOk(SaveStep(s, e), i) {
        assert DiskOk(s, i);
        SaveKeepsDisk(s, e, i);
      }
    }
  }

  /** Which makes every such step sound and safe. */
  lemma WholeStepSound(s: Sys, e: Event)
    requires AllDisksOk(s) && Orderly(s, e) && Whole(e)
    ensures Sound(s, e) && Safe(s, e)
  {
    hide NvFs.CopyValid, NvFs.Stored, NvFs.Repair, NvFs.Harmless;
    if s.saver.Writing? {
      assert DiskOk(s, s.saver.id);
    }
    if !s.Running() {
      assert DiskOk(s, s.boot);
    }
  }

  // ---- whole runs -----------------------------------------------------------------------

  /** A machine about to start. */
  ghost predicate Off(s: Sys) {
    && s.Valid() && s.boot == 0 && s.saver.Resting? && s.nv.sync == IDLE && s.nv.buf == []
    && s.nv.q == NvPacket.INITIAL && forall i :: 0 <= i < |s.nv.parts| ==> s.nv.parts[i] == Blank(s.nv.parts[i])
  }

  /** Whatever it was doing, a machine that has crashed is about to start, and nothing but its disks is left. */
  lemma CrashOff(s: Sys, cut: Option<nat>, order: bool)
    requires s.Valid()
    ensures Off(CrashStep(s, cut, order))
    ensures forall i :: 0 <= i < |s.nv.parts| ==>
              var p := CrashStep(s, cut, order).nv.parts[i];
              p.partId == s.nv.parts[i].partId && p.sctNum == s.nv.parts[i].sctNum
  {
    hide DiskAfterCrash;
    var s' := CrashStep(s, cut, order);
    forall i | 0 <= i < |s.nv.parts| ensures s'.nv.parts[i] == Blank(s'.nv.parts[i]) {
      assert s'.nv.parts[i] == Blank(s.nv.parts[i]);
    }
  }

  /** A machine about to start, with at least one valid copy of every partition on the disk. */
  ghost predicate PowerOn(s: Sys) {
    Off(s) && forall i :: 0 <= i < |s.nv.parts| ==> NvFs.HasValid(s.disks[i], PartSize(s.nv.parts[i]))
  }

  /** Every step of the run is sound where it is made. */
  ghost predicate AllSound(s: Sys, trace: seq<Event>)
    requires s.Valid()
  {
    forall k :: 0 <= k < |trace| && Run(s, trace[..k]).Some? ==> Sound(Run(s, trace[..k]).value, trace[k])
  }

  ghost predicate AllSafe(s: Sys, trace: seq<Event>)
    requires s.Valid()
  {
    forall k :: 0 <= k < |trace| && Run(s, trace[..k]).Some? ==> Safe(Run(s, trace[..k]).value, trace[k])
  }

  ghost predicate AllOrderly(s: Sys, trace: seq<Event>)
    requires s.Valid()
  {
    forall k :: 0 <= k < |trace| && Run(s, trace[..k]).Some? ==> Orderly(Run(s, trace[..k]).value, trace[k])
  }

  predicate AllWhole(trace: seq<Event>) { forall k :: 0 <= k < |trace| ==> Whole(trace[k]) }
  predicate NoCrash(trace: seq<Event>) { forall k :: 0 <= k < |trace| ==> !trace[k].Crash? }

  lemma RunLast(s: Sys, trace: seq<Event>)
    requires s.Valid() && trace != [] && Run(s, trace).Some?
    ensures var before := trace[..|trace| - 1];
            Run(s, before).Some? && Run(s, trace) == Step(Run(s, before).value, trace[|trace| - 1])
  {
    hide Step;
  }

  lemma SoundPrefix(s: Sys, trace: seq<Event>, n: nat)
    requires s.Valid() && n <= |trace|
    ensures AllSound(s, trace) ==> AllSound(s, trace[..n])
    ensures AllSafe(s, trace) ==> AllSafe(s, trace[..n])
    ensures AllOrderly(s, trace) ==> AllOrderly(s, trace[..n])
  {
    hide Run, Sound, Safe, Orderly;
    assert forall k :: 0 <= k < n ==> trace[..n][..k] == trace[..k];
  }

  lemma SoundLast(s: Sys, trace: seq<Event>)
    requires s.Valid() && trace != [] && Run(s, trace).Some?
    ensures Run(s, trace[..|trace| - 1]).Some?
    ensures var before, e := Run(s, trace[..|trace| - 1]).value, trace[|trace| - 1];
            && (AllSound(s, trace) ==> Sound(before, e))
            && (AllSafe(s, trace) ==> Safe(before, e))
            && (AllOrderly(s, trace) ==> Orderly(before, e))
  {
    RunLast(s, trace);
    hide Run, Sound, Safe, Orderly;
  }

  lemma {:induction false} RunKeeps(s: Sys, trace: seq<Event>)
    requires Off(s) && AllSound(s, trace) && Run(s, trace).Some?
    ensures AllPartsOk(Run(s, trace).value)
    decreases |trace|
  {
    hide *;
    OffOk(s);
    if trace == [] {
      RunNothing(s);
    } else {
      var n := |trace| - 1;
      RunLast(s, trace);
      SoundLast(s, trace);
      SoundPrefix(s, trace, n);
      RunKeeps(s, trace[..n]);
      StepKeeps(Run(s, trace[..n]).value, trace[n]);
    }
  }

  lemma OffOk(s: Sys)
    requires Off(s)
    ensures s.Valid() && AllPartsOk(s)
  {
    forall i | 0 <= i < |s.nv.parts| ensures PartOk(s, i) {
      assert s.nv.parts[i] == Blank(s.nv.parts[i]);
    }
  }

  lemma {:induction false} RunKeepsDisks(s: Sys, trace: seq<Event>)
    requires PowerOn(s) && AllOrderly(s, trace) && AllWhole(trace) && Run(s, trace).Some?
    ensures AllDisksOk(Run(s, trace).value)
    decreases |trace|
  {
    hide *;
    PowerOnOk(s);
    if trace == [] {
      RunNothing(s);
    } else {
      var n := |trace| - 1;
      RunLast(s, trace);
      SoundLast(s, trace);
      SoundPrefix(s, trace, n);
      WholeLast(trace);
      RunKeepsDisks(s, trace[..n]);
      StepKeepsDisks(Run(s, trace[..n]).value, trace[n]);
    }
  }

  lemma WholeLast(trace: seq<Event>)
    requires trace != [] && AllWhole(trace)
    ensures AllWhole(trace[..|trace| - 1]) && Whole(trace[|trace| - 1])
  {
  }

  lemma PowerOnOk(s: Sys)
    requires PowerOn(s)
    ensures s.Valid() && Off(s) && AllDisksOk(s)
  {
    hide NvFs.HasValid;
  }

  /** In a run from valid copies, in which files open, no write is cut short but by a crash, and start-up
      reads are in order, every step is sound and safe. */
  lemma WholeIsSound(s: Sys, trace: seq<Event>)
    requires PowerOn(s) && AllOrderly(s, trace) && AllWhole(trace)
    ensures s.Valid() && AllSound(s, trace) && AllSafe(s, trace)
  {
    hide PowerOn, Run, Sound, Safe, Orderly, Whole;
    PowerOnOk(s);
    forall k | 0 <= k < |trace| && Run(s, trace[..k]).Some?
      ensures Sound(Run(s, trace[..k]).value, trace[k]) && Safe(Run(s, trace[..k]).value, trace[k])
    {
      SoundPrefix(s, trace, k);
      RunKeepsDisks(s, trace[..k]);
      WholeStepSound(Run(s, trace[..k]).value, trace[k]);
    }
  }

  // ---- marks, whatever happens ------------------------------------------------------------

  lemma TrackedBlank(s: Sys, cut: Option<nat>, order: bool)
    requires s.Valid()
    ensures AllTracked(CrashStep(s, cut, order).nv)
  {
  }

  /** The marks are right at every point of every run at all, whatever becomes of the files. */
  lemma {:induction false} MarksTracked(s: Sys, trace: seq<Event>)
    requires s.Valid() && AllTracked(s.nv) && Run(s, trace).Some?
    ensures AllTracked(Run(s, trace).value.nv)
    decreases |trace|
  {
    if trace != [] {
      MarksTracked(s, trace[..|trace| - 1]);
      var before, e := Run(s, trace[..|trace| - 1]).value, trace[|trace| - 1];
      hide AllTracked, SyncStep, CrashStep;
      if e.Crash? {
        TrackedBlank(before, e.cut, e.order);
      } else if !before.Running() {
        if e.BootRead? { TrackedBoot(before, e.originFirst, e.repair); }
      } else if e.Recv? || e.ChannelFails? || e.Analyse? {
        SyncKeeps(before.nv, e);
      } else {
        TrackedSave(before, e);
      }
    }
  }

  lemma TrackedBoot(s: Sys, originFirst: bool, repair: NvFs.Io)
    requires s.Valid() && !s.Running() && AllTracked(s.nv)
    ensures AllTracked(BootStep(s, originFirst, repair).nv)
  {
    hide NvFs.Read;
  }

  lemma TrackedSave(s: Sys, e: Event)
    requires s.Valid() && s.Running() && AllTracked(s.nv)
    ensures AllTracked(SaveStep(s, e).nv)
  {
    hide NvFs.Put, NvFs.Reported;
  }

  /** Durability. At every point of every sound run of the two threads, with any crashes and any writes cut
      short: a sector in which the channel copy differs from the committed one, or the committed one
      from the staged one, is marked; and a partition without marks in its committed and staged
      copies has exactly its committed image on the disk. */
  lemma Durable(s: Sys, trace: seq<Event>, i: nat)
    requires Off(s) && AllSound(s, trace) && Run(s, trace).Some?
    requires i < |s.nv.parts| && Run(s, trace).value.Running()
    ensures var end := Run(s, trace).value;
            var p, d := end.nv.parts[i], end.disks[i];
            && DiffersWithin(p.fromChannel.image, p.backup.image, p.fromChannel.dirty)
            && DiffersWithin(p.backup.image, p.toDisk.image, p.backup.dirty)
            && (p.backup.dirty == {} && p.toDisk.dirty == {} ==>
                  NvFs.HasValid(d, PartSize(p)) && NvFs.Stored(d, PartSize(p)) == p.backup.image)
  {
    RunKeeps(s, trace);
    hide Run, NvFs.HasValid, NvFs.Stored;
    var end := Run(s, trace).value;
    assert PartOk(end, i);
    var p := end.nv.parts[i];
    if p.backup.dirty == {} { assert p.backup.image == p.toDisk.image; }
  }

  // ---- what is marked in the staging copy -------------------------------------------------------

  /** The staged image differs from what the disk of partition `i` holds in marked sectors only; and a file that
      is being written over is empty until the write. */
  ghost predicate StagedMarks(s: Sys, i: nat)
    requires s.Valid() && i < |s.nv.parts|
  {
    var p, d := s.nv.parts[i], s.disks[i];
    && (i < s.boot && NvFs.HasValid(d, PartSize(p)) ==>
          DiffersWithin(p.toDisk.image, NvFs.Stored(d, PartSize(p)), p.toDisk.dirty))
    && (SavingPart(s, i) && s.saver.stage == InBak ==> d.bak == Some([]))
    && (SavingPart(s, i) && s.saver.stage == InOrigin ==> d.origin == Some([]))
  }

  ghost predicate AllStagedMarks(s: Sys) {
    s.Valid() && forall i :: 0 <= i < |s.nv.parts| ==> StagedMarks(s, i)
  }

  lemma DiffersTwice(a: seq<u8>, b: seq<u8>, c: seq<u8>, d1: set<nat>, d2: set<nat>)
    requires DiffersWithin(a, b, d1) && DiffersWithin(b, c, d2)
    ensures DiffersWithin(a, c, d2 + d1)
  {
    forall x | 0 <= x < |a| && a[x] != c[x] ensures x / SECTOR in d2 + d1 {
      assert a[x] != b[x] || b[x] != c[x];
    }
  }

  lemma EmptyNotValid(size: nat)
    ensures !NvFs.CopyValid(Some([]), size)
  {
  }

  /** What the steps of a write do to the stored image: it stays, or becomes the staged one, or there is none. */
  lemma WriteStored(s: Sys, e: Event, i: nat)
    requires s.Valid() && s.Running() && i < |s.nv.parts| && SavingPart(s, i) && StagedMarks(s, i) && Safe(s, e)
    ensures var s', size := SaveStep(s, e), PartSize(s.nv.parts[i]);
            NvFs.HasValid(s'.disks[i], size) ==>
              || NvFs.Stored(s'.disks[i], size) == s.nv.parts[i].toDisk.image
              || (NvFs.HasValid(s.disks[i], size) && NvFs.Stored(s'.disks[i], size) == NvFs.Stored(s.disks[i], size))
  {
    hide NvFs.Put, NvFs.Reported, NvFs.EccOk, DiffersWithin;
    var image := s.nv.parts[i].toDisk.image;
    EmptyNotValid(PartSize(s.nv.parts[i]));
    if e.Fill? {
      NvFs.PutValidity(s.disks[i].bak, image, NvFs.Writes(e.head, e.body));
      NvFs.PutValidity(s.disks[i].origin, image, NvFs.Writes(e.head, e.body));
    }
  }

  lemma SaveKeepsStaged(s: Sys, e: Event, i: nat)
    requires s.Valid() && s.Running() && i < |s.nv.parts| && PartOk(s, i) && StagedMarks(s, i) && Safe(s, e)
    ensures StagedMarks(SaveStep(s, e), i)
  {
    hide NvFs.Put, NvFs.Reported, NvFs.HasValid, NvFs.Stored, DiffersWithin;
    var p, d := s.nv.parts[i], s.disks[i];
    if SavingPart(s, i) {
      WriteStored(s, e, i);
      SameDiffers(p.toDisk.image, p.toDisk.dirty);
      SameDiffers(p.toDisk.image, {});
    } else if s.saver == Seen(i) && e.Stage? && NvFs.HasValid(d, PartSize(p)) {
      DiffersTwice(p.backup.image, p.toDisk.image, NvFs.Stored(d, PartSize(p)), p.backup.dirty, p.toDisk.dirty);
    }
  }

  lemma SameDiffers(image: seq<u8>, dirty: set<nat>)
    ensures DiffersWithin(image, image, dirty)
  {
  }

  lemma BootKeepsStaged(s: Sys, e: Event)
    requires AllStagedMarks(s) && !s.Running() && e.BootRead? && Sound(s, e)
    ensures AllStagedMarks(BootStep(s, e.originFirst, e.repair))
  {
    hide NvFs.Read, NvFs.HasValid, NvFs.Stored, NvFs.Harmless;
    NvFs.ReadSettles(s.disks[s.boot], PartSize(s.nv.parts[s.boot]), e.originFirst, e.repair);
    forall i | 0 <= i < |s.nv.parts| ensures StagedMarks(BootStep(s, e.originFirst, e.repair), i) { assert StagedMarks(s, i); }
  }

  lemma SyncKeepsStaged(s: Sys, e: Event)
    requires AllStagedMarks(s) && s.Running() && SyncStep(s.nv, e).Some?
    ensures AllStagedMarks(s.(nv := SyncStep(s.nv, e).value))
  {
    hide NvFs.HasValid, NvFs.Stored, SyncStep;
    SyncTouches(s.nv, e);
    var s' := s.(nv := SyncStep(s.nv, e).value);
    forall i | 0 <= i < |s.nv.parts| ensures StagedMarks(s', i) {
      assert StagedMarks(s, i) && SyncOnly(s.nv.parts[i], s'.nv.parts[i]);
    }
  }

  lemma CrashKeepsStaged(s: Sys, cut: Option<nat>, order: bool)
    requires s.Valid()
    ensures AllStagedMarks(CrashStep(s, cut, order))
  {
    hide DiskAfterCrash, NvFs.HasValid, NvFs.Stored;
  }

  lemma StepKeepsStaged(s: Sys, e: Event)
    requires AllPartsOk(s) && AllStagedMarks(s) && Sound(s, e) && Safe(s, e)
    ensures Step(s, e).Some? ==> AllStagedMarks(Step(s, e).value)
  {
    hide NvFs.HasValid, NvFs.Stored, Sound, Safe, SyncStep, SaveStep, CrashStep, BootStep, StagedMarks;
    if e.Crash? {
      CrashKeepsStaged(s, e.cut, e.order);
    } else if !s.Running() {
      if e.BootRead? { BootKeepsStaged(s, e); }
    } else if e.Recv? || e.ChannelFails? || e.Analyse? {
      if SyncStep(s.nv, e).Some? { SyncKeepsStaged(s, e); }
    } else {
      forall i | 0 <= i < |s.nv.parts| ensures StagedMarks(SaveStep(s, e), i) { SaveKeepsStaged(s, e, i); }
    }
  }

  lemma OffStaged(s: Sys)
    requires Off(s)
    ensures AllStagedMarks(s)
  {
  }

  lemma {:induction false} RunKeepsStaged(s: Sys, trace: seq<Event>)
    requires Off(s) && AllSound(s, trace) && AllSafe(s, trace) && Run(s, trace).Some?
    ensures AllStagedMarks(Run(s, trace).value)
    decreases |trace|
  {
    hide *;
    OffOk(s);
    OffStaged(s);
    if trace == [] {
      RunNothing(s);
    } else {
      var n := |trace| - 1;
      RunLast(s, trace);
      SoundLast(s, trace);
      SoundPrefix(s, trace, n);
      RunKeepsStaged(s, trace[..n]);
      RunKeeps(s, trace[..n]);
      StepKeepsStaged(Run(s, trace[..n]).value, trace[n]);
    }
  }

  /** At every point of every sound and safe run, after any number of writes that failed, the sectors in which the
      stored image of a partition is behind the staged one are marked in the staging copy, and those in
      which it is behind the committed one are marked in one of the two. */
  lemma MarksCoverDisk(s: Sys, trace: seq<Event>, i: nat)
    requires Off(s) && AllSound(s, trace) && AllSafe(s, trace) && Run(s, trace).Some?
    requires i < |s.nv.parts| && Run(s, trace).value.Running()
    ensures var end := Run(s, trace).value;
            var p, d := end.nv.parts[i], end.disks[i];
            NvFs.HasValid(d, PartSize(p)) ==>
              && DiffersWithin(p.toDisk.image, NvFs.Stored(d, PartSize(p)), p.toDisk.dirty)
              && DiffersWithin(p.backup.image, NvFs.Stored(d, PartSize(p)), p.toDisk.dirty + p.backup.dirty)
  {
    RunKeeps(s, trace);
    RunKeepsStaged(s, trace);
    hide Run, NvFs.HasValid, NvFs.Stored, DiffersWithin;
    var end := Run(s, trace).value;
    assert PartOk(end, i) && StagedMarks(end, i);
    var p, d := end.nv.parts[i], end.disks[i];
    if NvFs.HasValid(d, PartSize(p)) {
      DiffersTwice(p.backup.image, p.toDisk.image, NvFs.Stored(d, PartSize(p)), p.backup.dirty, p.toDisk.dirty);
    }
  }

  // ---- what a crash can leave ---------------------------------------------------------------------

  predicate Beginning(f: NvFs.File, whole: seq<u8>) {
    f.Some? && f.value <= whole
  }

  /** The files of partition `i` as they are; or, if one was being written, with any beginning at all of what the
      write was to leave in it. */
  predicate PartlyWritten(s: Sys, i: nat, order: bool, x: NvFs.Disk)
    requires s.Valid() && i < |s.nv.parts|
  {
    var d, p := s.disks[i], s.nv.parts[i];
    var image, size := p.toDisk.image, PartSize(p);
    var header := NvFs.Repair(d, size, order);
    || x == d
    || (SavingPart(s, i) && s.saver.stage == InBak && x.origin == d.origin && Beginning(x.bak, NvFs.Copy(image)))
    || (SavingPart(s, i) && s.saver.stage == InOrigin && x.bak == d.bak && Beginning(x.origin, NvFs.Copy(image)))
    || (s.boot == i && header.Some? && order && x.bak == d.bak
        && Beginning(x.origin, header.value + NvFs.Found(d, size, order)))
    || (s.boot == i && header.Some? && !order && x.origin == d.origin
        && Beginning(x.bak, header.value + NvFs.Found(d, size, order)))
  }

  /** Exactly what a crash can leave of the disk of a partition. */
  lemma CrashLeavesIff(s: Sys, i: nat, order: bool, x: NvFs.Disk)
    requires s.Valid() && i < |s.nv.parts|
    ensures (exists cut :: CrashStep(s, cut, order).disks[i] == x) <==> PartlyWritten(s, i, order, x)
  {
    hide NvFs.Repair, NvFs.Found, NvFs.Copy, PartlyWritten, DiskAfterCrash;
    forall cut ensures PartlyWritten(s, i, order, CrashStep(s, cut, order).disks[i]) {
      LeftPartly(s, i, cut, order);
    }
    if PartlyWritten(s, i, order, x) {
      var cut := PartlyLeft(s, i, order, x);
      assert CrashStep(s, cut, order).disks[i] == x;
    }
  }

  lemma LeftPartly(s: Sys, i: nat, cut: Option<nat>, order: bool)
    requires s.Valid() && i < |s.nv.parts|
    ensures PartlyWritten(s, i, order, DiskAfterCrash(s, i, cut, order))
  {
    hide NvFs.Repair, NvFs.Found, NvFs.Copy;
  }

  lemma PartlyLeft(s: Sys, i: nat, order: bool, x: NvFs.Disk) returns (cut: Option<nat>)
    requires s.Valid() && i < |s.nv.parts| && PartlyWritten(s, i, order, x)
    ensures DiskAfterCrash(s, i, cut, order) == x
  {
    hide NvFs.Repair, NvFs.Found, NvFs.Copy;
    if x == s.disks[i] {
      cut := None;
    } else if (if SavingPart(s, i) then s.saver.stage == InBak else !order) {
      cut := Some(|x.bak.value|);
      assert x == s.disks[i].(bak := x.bak);
      assert forall whole :: Beginning(x.bak, whole) ==> whole[..|x.bak.value|] == x.bak.value;
    } else {
      cut := Some(|x.origin.value|);
      assert x == s.disks[i].(origin := x.origin);
      assert forall whole :: Beginning(x.origin, whole) ==> whole[..|x.origin.value|] == x.origin.value;
    }
  }

  /** Events that are not of the sync thread, and no crash. */
  predicate SaveOnly(trace: seq<Event>) {
    forall k :: 0 <= k < |trace| ==> !trace[k].Recv? && !trace[k].ChannelFails? && !trace[k].Analyse? && !trace[k].Crash?
  }

  /** The save thread is not at work on partition `i`. */
  predicate Away(s: Sys, i: nat) {
    s.saver.Resting? || s.saver.At? || s.saver.id != i
  }

  /** A partition without marks in its committed copy is left alone by the save thread - its copies and
      its files, marks in the staging copy or not - whatever becomes of the other partitions. So
      a write that failed is not tried again by itself. */
  lemma {:induction false} FailedWriteWaits(s: Sys, trace: seq<Event>, i: nat)
    requires s.Valid() && s.Running() && i < |s.nv.parts| && Away(s, i) && s.nv.parts[i].backup.dirty == {}
    requires SaveOnly(trace)
    ensures Run(s, trace).Some? && Run(s, trace).value.Running()
    ensures var end := Run(s, trace).value;
            Away(end, i) && end.nv.parts[i] == s.nv.parts[i] && end.disks[i] == s.disks[i]
    decreases |trace|
  {
    if trace != [] {
      var before, e := trace[..|trace| - 1], trace[|trace| - 1];
      assert forall k :: 0 <= k < |before| ==> before[k] == trace[k];
      FailedWriteWaits(s, before, i);
      hide Run;
      RunLastStep(s, trace);
      LeftAlone(Run(s, before).value, e, i);
    }
  }

  lemma RunLastStep(s: Sys, trace: seq<Event>)
    requires s.Valid() && trace != [] && Run(s, trace[..|trace| - 1]).Some?
    ensures Run(s, trace) == Step(Run(s, trace[..|trace| - 1]).value, trace[|trace| - 1])
  {
  }

  lemma LeftAlone(s: Sys, e: Event, i: nat)
    requires s.Valid() && s.Running() && i < |s.nv.parts| && Away(s, i) && s.nv.parts[i].backup.dirty == {}
    ensures var s' := SaveStep(s, e);
            Away(s', i) && s'.nv.parts[i] == s.nv.parts[i] && s'.disks[i] == s.disks[i]
  {
    hide NvFs.Put, NvFs.Reported;
  }
}
