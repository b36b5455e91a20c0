/** The daemon's state as the C code keeps it: image buffers and dirty tables changed in place. */
module NvDaemon {
  import opened Words
  import opened NvBuffer
  import opened NvDirty
  import opened NvSync
  import NvPacket
  import NvFs
  import opened NvSystem
  import Checksum

  /** `_RAMNV_PART_CTRL`: three buffers, each an image and a dirty table. */
  class Partition {
    const partId: u32
    const sctNum: nat
    const fromImage: array<u8>
    const fromDirty: array<bv32>
    const backImage: array<u8>
    const backDirty: array<bv32>
    const diskImage: array<u8>
    const diskDirty: array<bv32>

    ghost function Arrays(): set<object> {
      {fromImage, fromDirty, backImage, backDirty, diskImage, diskDirty}
    }

    ghost predicate Valid() {
      && sctNum <= MAX_SECTORS
      && fromImage.Length == backImage.Length == diskImage.Length == SECTOR * sctNum
      && fromDirty.Length == backDirty.Length == diskDirty.Length == 32
      && fromImage != backImage && fromImage != diskImage && backImage != diskImage
      && fromDirty != backDirty && fromDirty != diskDirty && backDirty != diskDirty
    }

    ghost function View(): (p: Part)
      requires Valid()
      reads Arrays()
      ensures p.Valid()
    {
      Part(partId, sctNum, Buf(fromImage[..], Marks(fromDirty[..])), Buf(backImage[..], Marks(backDirty[..])),
           Buf(diskImage[..], Marks(diskDirty[..])))
    }

    /** The buffers `initBuf` sets up once `image` has been read from the disk. */
    constructor (partId: u32, sctNum: nat, image: seq<u8>)
      requires sctNum <= MAX_SECTORS && |image| == SECTOR * sctNum
      ensures Valid() && View() == Loaded(partId, sctNum, image) && fresh(Arrays())
    {
      this.partId, this.sctNum := partId, sctNum;
      fromImage := new u8[|image|](i requires 0 <= i < |image| => image[i]);
      backImage := new u8[|image|](i requires 0 <= i < |image| => image[i]);
      diskImage := new u8[|image|](i requires 0 <= i < |image| => image[i]);
      fromDirty := new bv32[32](_ => 0);
      backDirty := new bv32[32](_ => 0);
      diskDirty := new bv32[32](_ => 0);
      new;
      MarksNothing(fromDirty[..]);
      MarksNothing(backDirty[..]);
      MarksNothing(diskDirty[..]);
      assert fromImage[..] == image && backImage[..] == image && diskImage[..] == image;
    }

    /** `_markDirtyInfo` on the channel copy. */
    method Mark(start: nat, scts: nat)
      requires Valid() && scts >= 1 && start + scts <= MAX_SECTORS
      modifies fromDirty
      ensures View() == MarkDirty(old(View()), start, scts)
    {
      MarkDirtyInfo(fromDirty, start, scts);
    }

    /** `writeData` */
    method Write(start: nat, buf: seq<u8>)
      requires Valid() && start + |buf| <= SECTOR * sctNum
      modifies fromImage
      ensures View() == WriteData(old(View()), start, buf)
    {
      forall i | 0 <= i < |buf| {
        fromImage[start + i] := buf[i];
      }
      assert fromImage[..] == Store(old(fromImage[..]), start, buf);
    }

    /** `backupData` */
    method Commit()
      requires Valid()
      modifies backImage, backDirty
      ensures View() == Backup(old(View()))
    {
      hide Marks;
      forall i | 0 <= i < backImage.Length {
        backImage[i] := fromImage[i];
      }
      assert backImage[..] == fromImage[..] == old(fromImage[..]) && backDirty[..] == old(backDirty[..]);
      OrInto(backDirty, fromDirty);
      assert backImage[..] == fromImage[..] && fromDirty[..] == old(fromDirty[..]);
      assert diskImage[..] == old(diskImage[..]) && diskDirty[..] == old(diskDirty[..]);
    }

    /** `restoreData` */
    method Rollback()
      requires Valid()
      modifies fromImage, fromDirty
      ensures View() == Restore(old(View()))
    {
      forall i | 0 <= i < fromImage.Length {
        fromImage[i] := backImage[i];
      }
      forall i | 0 <= i < 32 {
        fromDirty[i] := backDirty[i];
      }
      assert fromImage[..] == backImage[..] && fromDirty[..] == backDirty[..];
    }

    /** `__getData` */
    method Stage()
      requires Valid()
      modifies diskImage, diskDirty, backDirty
      ensures View() == GetData(old(View()))
    {
      hide Marks;
      forall i | 0 <= i < diskImage.Length {
        diskImage[i] := backImage[i];
      }
      assert diskImage[..] == backImage[..] == old(backImage[..]);
      assert diskDirty[..] == old(diskDirty[..]) && backDirty[..] == old(backDirty[..]);
      OrInto(diskDirty, backDirty);
      assert backDirty[..] == old(backDirty[..]);
      Clear(backDirty);
      assert diskImage[..] == backImage[..] && fromImage[..] == old(fromImage[..]) && fromDirty[..] == old(fromDirty[..]);
    }

    /** The end of `saveToDisk`, once the write has been reported done. */
    method ClearStaged()
      requires Valid()
      modifies diskDirty
      ensures View() == Saved(old(View()))
    {
      hide Marks;
      Clear(diskDirty);
    }

    /** `__ifHasDirty` */
    method HasDirty() returns (r: bool)
      requires Valid()
      ensures r <==> View().backup.dirty != {}
    {
      MarksNothing(backDirty[..]);
      for i := 0 to 32
        invariant forall j :: 0 <= j < i ==> backDirty[j] == 0
      {
        if backDirty[i] != 0 {
          assert backDirty[..][i] != 0;
          return true;
        }
      }
      return false;
    }
  }

  // ---- the table of partitions ------------------------------------------------------------

  /** The partitions of `ramNvCtl`: no two of them share a buffer or a table. */
  ghost predicate Separate(parts: seq<Partition>) {
    && (forall i :: 0 <= i < |parts| ==> parts[i].Valid())
    && (forall i, j :: 0 <= i < j < |parts| ==> parts[i].Arrays() !! parts[j].Arrays())
  }

  ghost function AllArrays(parts: seq<Partition>): set<object> {
    set i, o | 0 <= i < |parts| && o in parts[i].Arrays() :: o
  }

  lemma OwnArrays(parts: seq<Partition>, id: nat)
    requires id < |parts|
    ensures var p := parts[id];
            && p.fromImage in AllArrays(parts) && p.fromDirty in AllArrays(parts) && p.backImage in AllArrays(parts)
            && p.backDirty in AllArrays(parts) && p.diskImage in AllArrays(parts) && p.diskDirty in AllArrays(parts)
  {
    var p := parts[id];
    assert p.fromImage in p.Arrays() && p.fromDirty in p.Arrays() && p.backImage in p.Arrays()
        && p.backDirty in p.Arrays() && p.diskImage in p.Arrays() && p.diskDirty in p.Arrays();
  }

  ghost function Views(parts: seq<Partition>): (r: seq<Part>)
    requires Separate(parts)
    reads AllArrays(parts)
    ensures |r| == |parts| && forall i :: 0 <= i < |r| ==> r[i] == parts[i].View()
  {
    seq(|parts|, i requires 0 <= i < |parts| && parts[i].Valid() reads AllArrays(parts) => parts[i].View())
  }

  method MarkAt(parts: seq<Partition>, id: nat, start: nat, scts: nat)
    requires Separate(parts) && id < |parts| && scts >= 1 && start + scts <= MAX_SECTORS
    modifies parts[id].fromDirty
    ensures Views(parts) == old(Views(parts))[id := MarkDirty(old(Views(parts))[id], start, scts)]
  {
    hide MarkDirty;
    parts[id].Mark(start, scts);
    forall j | 0 <= j < |parts| && j != id ensures parts[j].View() == old(parts[j].View()) {
      assert parts[id].fromDirty in parts[id].Arrays();
    }
  }

  method WriteAt(parts: seq<Partition>, id: nat, start: nat, buf: seq<u8>)
    requires Separate(parts) && id < |parts| && start + |buf| <= SECTOR * parts[id].sctNum
    modifies parts[id].fromImage
    ensures Views(parts) == old(Views(parts))[id := WriteData(old(Views(parts))[id], start, buf)]
  {
    hide WriteData;
    parts[id].Write(start, buf);
    forall j | 0 <= j < |parts| && j != id ensures parts[j].View() == old(parts[j].View()) {
      assert parts[id].fromImage in parts[id].Arrays();
    }
  }

  method CommitAt(parts: seq<Partition>, id: nat)
    requires Separate(parts) && id < |parts|
    modifies parts[id].backImage, parts[id].backDirty
    ensures Views(parts) == old(Views(parts))[id := Backup(old(Views(parts))[id])]
  {
    hide Backup;
    parts[id].Commit();
    forall j | 0 <= j < |parts| && j != id ensures parts[j].View() == old(parts[j].View()) {
      assert parts[id].backImage in parts[id].Arrays() && parts[id].backDirty in parts[id].Arrays();
    }
  }

  method RollbackAt(parts: seq<Partition>, id: nat)
    requires Separate(parts) && id < |parts|
    modifies parts[id].fromImage, parts[id].fromDirty
    ensures Views(parts) == old(Views(parts))[id := Restore(old(Views(parts))[id])]
  {
    hide Restore;
    parts[id].Rollback();
    forall j | 0 <= j < |parts| && j != id ensures parts[j].View() == old(parts[j].View()) {
      assert parts[id].fromImage in parts[id].Arrays() && parts[id].fromDirty in parts[id].Arrays();
    }
  }

  lemma ViewsValid(parts: seq<Partition>)
    requires Separate(parts)
    ensures forall i :: 0 <= i < |parts| ==> Views(parts)[i].Valid()
  {
  }

  /** The file-scope state of nvitem_sync.c and nvitem_packet.c, over the partitions of `ramNvCtl`. */
  class SyncModule {
    const reader: NvPacket.PacketReader
    const parts: seq<Partition>
    var syncState: nat
    var syncBusy: bool
    var reqFrame: u32
    var id: int
    var start: nat
    var len: nat

    /** The objects the module may change. */
    ghost function Repr(): set<object> {
      {this, reader} + AllArrays(parts)
    }

    ghost predicate Wired() {
      Separate(parts) && reader !in AllArrays(parts) && this !in AllArrays(parts)
    }

    /** The state with `buf` left of the packet under analysis. */
    ghost function View(buf: seq<u8>): Nv
      requires Wired()
      reads Repr()
    {
      Nv(reader.View(), Sync(syncState, syncBusy, reqFrame, id, start, len), Views(parts), buf)
    }

    constructor (parts: seq<Partition>)
      requires Separate(parts)
      ensures Wired() && this.parts == parts && fresh(reader)
      ensures View([]) == Nv(NvPacket.INITIAL, IDLE, Views(parts), []) && View([]).Valid()
    {
      this.parts := parts;
      reader := new NvPacket.PacketReader();
      syncState, syncBusy, reqFrame, id, start, len := 0, false, 0, -1, 0, 0;
      new;
      ViewsValid(parts);
    }

    /** `_syncInit` */
    method Init()
      requires Wired()
      modifies this
      ensures View([]) == old(View([])).(sync := IDLE)
    {
      syncState, syncBusy, reqFrame, id, start, len := 0, false, 0, -1, 0, 0;
    }

    /** `_syncReset(SYNC_FAIL_RESET)` */
    method Fail(buf: seq<u8>)
      requires Wired() && View(buf).Valid()
      modifies this, AllArrays(parts)
      ensures View([]) == FailReset(old(View(buf)))
    {
      if syncState != 0 {
        OwnArrays(parts, id);
        RollbackAt(parts, id);
      }
      Init();
    }

    /** `_syncReset(SYNC_SUC_RESET)` */
    method Succeed(buf: seq<u8>)
      requires Wired() && View(buf).Valid() && syncState != 0
      modifies this, AllArrays(parts)
      ensures View([]) == SucReset(old(View(buf)))
    {
      OwnArrays(parts, id);
      CommitAt(parts, id);
      Init();
    }

    /** `getCtlId` */
    method FindPart(partId: u32) returns (r: int)
      requires Wired()
      ensures r == CtlId(Views(parts), partId)
    {
      r := -1;
      for i := 0 to |parts|
        invariant r == -1 && forall j :: 0 <= j < i ==> parts[j].partId != partId
      {
        if parts[i].partId == partId {
          return i;
        }
      }
    }

    /** `_syncGetHead` and its branch of the loop. */
    method GetHead(buf: seq<u8>) returns (rest: seq<u8>)
      requires Wired() && View(buf).Valid() && syncState == 0 && syncBusy
      modifies this, AllArrays(parts)
      ensures View(rest) == OnHead(old(View(buf)))
    {
      hide Word32, CtlId, Separate, AllArrays, Views, FailReset;
      ghost var nv := View(buf);
      if |buf| < TOKEN { return []; }
      var tok := buf[..TOKEN];
      if Kind(tok) != HEAD {
        Fail(buf);
        return [];
      }
      var found := FindPart(PartId(tok));
      assert View(buf) == nv && found == CtlId(nv.parts, PartId(tok));
      if found == -1 {
        assert OnHead(nv) == FailReset(nv);
        Fail(buf);
        return [];
      }
      reqFrame, id, syncState := ReqIdx(tok), found, 1;
      return buf[TOKEN..];
    }

    /** `_syncGetBody` and its branch of the loop; not `ok` when the body lies outside of its partition,
        so that the code would leave the buffers. */
    method GetBody(buf: seq<u8>) returns (ok: bool, rest: seq<u8>)
      requires Wired() && View(buf).Valid() && syncState == 1
      modifies this, AllArrays(parts)
      ensures ok == old(OnBody(View(buf)).Some?)
      ensures ok ==> Some(View(rest)) == old(OnBody(View(buf)))
    {
      hide Word32, FailReset, SucReset, Separate, AllArrays, Views, MarkDirty;
      if |buf| < TOKEN { return true, []; }
      var tok := buf[..TOKEN];
      if Kind(tok) == BODY {
        if Inc32(reqFrame) != ReqIdx(tok) {
          Fail(buf);
          return true, [];
        }
        if SectorCount(tok) == 0 || StartSector(tok) + SectorCount(tok) > parts[id].sctNum { return false, buf; }
        reqFrame := Inc32(reqFrame);
        OwnArrays(parts, id);
        MarkAt(parts, id, StartSector(tok), SectorCount(tok));
        start := StartSector(tok) * SECTOR;
        len := SectorCount(tok) * SECTOR;
        syncState := 2;
        return true, buf[TOKEN..];
      } else if Kind(tok) == TAIL {
        if Inc32(reqFrame) != ReqIdx(tok) {
          Fail(buf);
          return true, [];
        }
        Succeed(buf);
        return true, [];
      }
      Fail(buf);
      return true, [];
    }

    /** `_syncGetData` and its branch of the loop. */
    method GetData(buf: seq<u8>) returns (rest: seq<u8>)
      requires Wired() && View(buf).Valid() && syncState == 2
      modifies this, AllArrays(parts)
      ensures View(rest) == OnData(old(View(buf)))
    {
      hide Separate, AllArrays, Views, WriteData;
      OwnArrays(parts, id);
      if len <= |buf| {
        rest := buf[len..];
        WriteAt(parts, id, start, buf[..len]);
        start, len, syncState := start + len, 0, 1;
      } else {
        rest := [];
        WriteAt(parts, id, start, buf);
        start, len := start + |buf|, len - |buf|;
        assert buf[..|buf|] == buf;
      }
    }

    /** The inner loop of `syncAnalyzer`. */
    method AnalyzeBuffer(packet: seq<u8>) returns (ok: bool)
      requires Wired() && View(packet).Valid()
      modifies this, AllArrays(parts)
      ensures ok == old(Analyze(View(packet)).Some?)
      ensures ok ==> Some(View([])) == old(Analyze(View(packet)))
    {
      hide OnHead, OnBody, OnData, Analyze;
      var buf := packet;
      while |buf| != 0
        invariant View(buf).Valid() && Analyze(View(buf)) == old(Analyze(View(packet)))
        decreases |buf|, syncState
      {
        AnalyzeStep(View(buf));
        if syncState == 0 {
          buf := GetHead(buf);
        } else if syncState == 1 {
          ok, buf := GetBody(buf);
          if !ok { return; }
        } else {
          buf := GetData(buf);
        }
      }
      AnalyzeEnd(View([]));
      return true;
    }

    /** The channel fails: the request under way is given up, and the main loop initialises both modules again. */
    method Lose()
      requires Wired() && View([]).Valid()
      modifies Repr()
      ensures View([]) == NvSync.Lose(old(View([])))
    {
      hide Separate, AllArrays, Views;
      Fail([]);
      reader.Init();
      Init();
    }

    /** One round of the outer loop of `syncAnalyzer`. */
    method OnRead(raw: NvPacket.Raw) returns (ok: bool)
      requires Wired() && View([]).Valid()
      modifies Repr()
      ensures ok == old(OnPacket(View([]), raw).Some?)
      ensures ok ==> Some(View([])) == old(OnPacket(View([]), raw))
    {
      hide Analyze, FailReset, NvPacket.Classify, NvPacket.Advance, Separate, AllArrays, Views;
      ghost var nv := View([]);
      var verdict := reader.GetPacket(raw);
      assert View([]) == nv.(q := NvPacket.Advance(nv.q, raw));
      match verdict {
        case Start(body) =>
          if syncBusy { Fail([]); }
          syncBusy := true;
          assert Some(View(body)) == Receive(nv, raw);
          ok := AnalyzeBuffer(body);
        case Continue(body) =>
          if syncBusy {
            assert Some(View(body)) == Receive(nv, raw);
            ok := AnalyzeBuffer(body);
          } else {
            AnalyzeEnd(View([]));
            ok := true;
          }
        case Skip =>
          AnalyzeEnd(View([]));
          ok := true;
        case Undefined =>
          ok := false;
      }
    }
  }

  /** One 32-bit field of the header, least significant byte first. */
  method PutWord(a: array<u8>, at: nat, x: u32)
    requires at + 4 <= a.Length
    modifies a
    ensures a[..] == old(a[..])[..at] + Bytes32(x) + old(a[..])[at + 4..]
  {
    var bytes := Bytes32(x);
    a[at], a[at + 1], a[at + 2], a[at + 3] := bytes[0], bytes[1], bytes[2], bytes[3];
  }

  /** The header that `ramDisk_Write` builds in its buffer, field by field. */
  method MakeHeader(buf: seq<u8>) returns (header: seq<u8>)
    ensures header == NvFs.Header(buf)
  {
    hide Bytes32, NvFs.Header, Checksum.Checksum32;
    var a := new u8[NvFs.HEAD](_ => 0);
    ghost var zeros := a[..];
    PutWord(a, 0, NvFs.MAGIC);
    ghost var s1 := a[..];
    PutWord(a, 4, |buf| % 0x1_0000_0000);
    ghost var s2 := a[..];
    PutWord(a, 12, NvFs.VERSION);
    ghost var s3 := a[..];
    var sum := Checksum.CalcChecksum(buf);
    PutWord(a, 8, sum);
    FourFields(zeros, s1, s2, s3, a[..], Bytes32(NvFs.MAGIC), Bytes32(|buf| % 0x1_0000_0000), Bytes32(sum), Bytes32(NvFs.VERSION));
    HeaderFields(buf, zeros);
    return a[..];
  }

  lemma FourFields(z: seq<u8>, s1: seq<u8>, s2: seq<u8>, s3: seq<u8>, s4: seq<u8>,
                   m: seq<u8>, l: seq<u8>, c: seq<u8>, v: seq<u8>)
    requires |z| >= 16 && |m| == |l| == |c| == |v| == 4
    requires s1 == z[..0] + m + z[4..] && s2 == s1[..4] + l + s1[8..]
    requires s3 == s2[..12] + v + s2[16..] && s4 == s3[..8] + c + s3[12..]
    ensures s4 == m + l + c + v + z[16..]
  {
  }

  lemma HeaderFields(buf: seq<u8>, zeros: seq<u8>)
    requires |zeros| == NvFs.HEAD && forall k :: 0 <= k < |zeros| ==> zeros[k] == 0
    ensures NvFs.Header(buf) == Bytes32(NvFs.MAGIC) + Bytes32(|buf| % 0x1_0000_0000) + Bytes32(Checksum.Checksum32(buf))
                                + Bytes32(NvFs.VERSION) + zeros[16..]
  {
    hide Bytes32, Checksum.Checksum32;
    assert zeros[16..] == NvFs.Filled(NvFs.HEAD - 16, 0);
  }

  /** The two files of a partition. */
  class DiskFiles {
    var origin: NvFs.File
    var bak: NvFs.File

    function Files(): NvFs.Disk
      reads this
    {
      NvFs.Disk(origin, bak)
    }

    /** `ramDisk_Write`; `bakIo` and `originIo` are what the operating system makes of the two files. */
    method RamDiskWrite(buf: seq<u8>, bakIo: NvFs.Io, originIo: NvFs.Io) returns (ret: bool)
      modifies this
      ensures (Files(), ret) == NvFs.Write(old(Files()), buf, bakIo, originIo)
    {
      hide NvFs.Header;
      var header := MakeHeader(buf);
      ret := true;
      assert forall n :: 0 <= n <= NvFs.HEAD ==> [] + header[..n] == header[..n];
      if bakIo.Writes? {
        bak := Some([]);
        bak := Some(bak.value + header[..Min(bakIo.head, NvFs.HEAD)]);
        if bakIo.head < NvFs.HEAD { ret := false; }
        bak := Some(bak.value + buf[..Min(bakIo.body, |buf|)]);
        if bakIo.body < |buf| { ret := false; }
      }
      if originIo.Writes? {
        origin := Some([]);
        origin := Some(origin.value + header[..Min(originIo.head, NvFs.HEAD)]);
        if originIo.head < NvFs.HEAD { ret := false; }
        origin := Some(origin.value + buf[..Min(originIo.body, |buf|)]);
        if originIo.body < |buf| { ret := false; }
      }
    }

    /** `ramDisk_Read`; `originFirst` is the outcome of `rand()%2`, `io` what the operating system makes of
        the repair. */
    method RamDiskRead(size: nat, originFirst: bool, io: NvFs.Io) returns (buf: seq<u8>)
      modifies this
      ensures (Files(), buf) == NvFs.Read(old(Files()), size, originFirst, io)
    {
      hide NvFs.Repair, Checksum.Checksum32, Word32;
      var firstName, secondName := if originFirst then origin else bak, if originFirst then bak else origin;
      var ret2 := 0;
      if firstName.Some? {
        ret2 := NvFs.ReadLen(firstName, size);
        if |firstName.value| >= NvFs.HEAD && ret2 == size {
          buf := firstName.value[NvFs.HEAD..NvFs.HEAD + size];
          var crc := Checksum.CalcChecksum(buf);
          if crc == Word32(firstName.value[..NvFs.HEAD], 8) % 0x1_0000 {
            NoRepair(Files(), size, originFirst);
            return;
          }
        }
      }
      var header: Option<seq<u8>>;
      header, buf := SecondRead(Files(), size, originFirst, ret2);
      if header.Some? && io.Writes? {
        var file := header.value[..Min(io.head, NvFs.HEAD)];
        file := file + buf[..Min(io.body, size)];
        if originFirst { origin := Some(file); } else { bak := Some(file); }
      }
    }
  }

  lemma NoRepair(d: NvFs.Disk, size: nat, originFirst: bool)
    requires NvFs.CopyValid(NvFs.First(d, originFirst), size)
    ensures NvFs.Repair(d, size, originFirst).None?
  {
  }

  /** The second half of `ramDisk_Read`, with the length read in the first: the image, and the header if the
      first file is to be written. */
  method SecondRead(d: NvFs.Disk, size: nat, originFirst: bool, ret: nat)
    returns (header: Option<seq<u8>>, buf: seq<u8>)
    requires ret == NvFs.ReadLen(NvFs.First(d, originFirst), size) && !NvFs.CopyValid(NvFs.First(d, originFirst), size)
    ensures header == NvFs.Repair(d, size, originFirst) && buf == NvFs.Found(d, size, originFirst)
  {
    hide Checksum.Checksum32, Word32;
    var second := NvFs.Second(d, originFirst);
    var ret2 := ret;
    buf := NvFs.ReadBuf(second, size);
    header := None;
    var head := NvFs.Filled(NvFs.HEAD, 0);
    if second.Some? {
      ret2 := NvFs.ReadLen(second, size);
      if |second.value| < NvFs.HEAD { return; }
      head := second.value[..NvFs.HEAD];
    }
    if ret2 != size { return; }
    var crc := Checksum.CalcChecksum(buf);
    if crc != Word32(head, 8) % 0x1_0000 { return; }
    header := Some(head);
  }

  /** `saveToDisk` for one partition, undisturbed. */
  function SavePart(p: Part, d: NvFs.Disk, bakIo: NvFs.Io, originIo: NvFs.Io): (Part, NvFs.Disk) {
    if p.backup.dirty == {} then (p, d)
    else
      var staged := NvBuffer.GetData(p);
      var (d', ok) := NvFs.Write(d, staged.toDisk.image, bakIo, originIo);
      (if ok then Saved(staged) else staged, d')
  }

  /** The body of the loop in `saveToDisk`. */
  method SavePartition(p: Partition, files: DiskFiles, bakIo: NvFs.Io, originIo: NvFs.Io)
    requires p.Valid()
    modifies p.diskImage, p.diskDirty, p.backDirty, files
    ensures (p.View(), files.Files()) == SavePart(old(p.View()), old(files.Files()), bakIo, originIo)
  {
    hide NvFs.Write, Marks;
    var dirty := p.HasDirty();
    if dirty {
      p.Stage();
      var done := files.RamDiskWrite(p.diskImage[..], bakIo, originIo);
      if done {
        p.ClearStaged();
      }
    }
  }

  ghost function Disks(files: seq<DiskFiles>): (r: seq<NvFs.Disk>)
    reads files
    ensures |r| == |files| && forall i :: 0 <= i < |r| ==> r[i] == files[i].Files()
  {
    seq(|files|, i requires 0 <= i < |files| reads files => files[i].Files())
  }

  /** A pair of files for every partition, no two of them the same. */
  ghost predicate Paired(parts: seq<Partition>, files: seq<DiskFiles>) {
    && Separate(parts) && |files| == |parts|
    && forall i, j :: 0 <= i < j < |files| ==> files[i] != files[j]
  }

  method SaveAt(parts: seq<Partition>, files: seq<DiskFiles>, id: nat, bakIo: NvFs.Io, originIo: NvFs.Io)
    requires Paired(parts, files) && id < |parts|
    modifies parts[id].diskImage, parts[id].diskDirty, parts[id].backDirty, files[id]
    ensures var (p, d) := SavePart(old(Views(parts))[id], old(Disks(files))[id], bakIo, originIo);
            Views(parts) == old(Views(parts))[id := p] && Disks(files) == old(Disks(files))[id := d]
  {
    hide SavePart, Views, Disks, AllArrays;
    var p := parts[id];
    SavePartition(p, files[id], bakIo, originIo);
    forall j | 0 <= j < |parts| && j != id ensures parts[j].View() == old(parts[j].View()) {
      assert p.diskImage in p.Arrays() && p.diskDirty in p.Arrays() && p.backDirty in p.Arrays();
    }
    forall j | 0 <= j < |files| && j != id ensures files[j].Files() == old(files[j].Files()) {
      assert files[j] != files[id];
    }
  }

  /** `saveToDisk`, undisturbed: every partition is saved, whatever fails for the others. */
  method SaveToDisk(parts: seq<Partition>, files: seq<DiskFiles>, baks: seq<NvFs.Io>, origins: seq<NvFs.Io>)
    requires Paired(parts, files) && |baks| == |origins| == |parts|
    modifies AllArrays(parts), files
    ensures forall i :: 0 <= i < |parts| ==>
              (Views(parts)[i], Disks(files)[i]) == SavePart(old(Views(parts))[i], old(Disks(files))[i], baks[i], origins[i])
  {
    hide SavePart, Views, Disks, AllArrays, Paired;
    PairedSeparate(parts, files);
    ghost var vs, ds := Views(parts), Disks(files);
    for id := 0 to |parts|
      invariant forall i :: 0 <= i < id ==> (Views(parts)[i], Disks(files)[i]) == SavePart(vs[i], ds[i], baks[i], origins[i])
      invariant forall i :: id <= i < |parts| ==> Views(parts)[i] == vs[i] && Disks(files)[i] == ds[i]
    {
      OwnArrays(parts, id);
      SaveAt(parts, files, id, baks[id], origins[id]);
    }
  }

  lemma PairedSeparate(parts: seq<Partition>, files: seq<DiskFiles>)
    requires Paired(parts, files)
    ensures Separate(parts) && |files| == |parts|
  {
  }

  /** The body of the loop in `initBuf`. */
  method InitPartition(partId: u32, sctNum: nat, files: DiskFiles, originFirst: bool, io: NvFs.Io) returns (p: Partition)
    requires sctNum <= MAX_SECTORS
    modifies files
    ensures p.Valid() && fresh(p.Arrays())
    ensures var (d, image) := NvFs.Read(old(files.Files()), SECTOR * sctNum, originFirst, io);
            files.Files() == d && p.View() == Loaded(partId, sctNum, image)
  {
    hide NvFs.Read;
    var image := files.RamDiskRead(SECTOR * sctNum, originFirst, io);
    p := new Partition(partId, sctNum, image);
  }

  lemma StageSteps(s: Sys, id: nat)
    requires s.Valid() && s.Running() && s.saver == At(id) && id < |s.nv.parts| && s.nv.parts[id].backup.dirty != {}
    ensures SaveStep(SaveStep(s, Look(true)), Event.Stage)
              == SetPart(s, id, NvBuffer.GetData(s.nv.parts[id])).(saver := Writing(id, BeforeBak, true))
  {
  }

  /** The steps for one file: it does not open, or it opens and is filled. */
  function FileSteps(s: Sys, io: NvFs.Io): Sys
    requires s.Valid() && s.Running()
  {
    if io.Writes? then SaveStep(SaveStep(s, Open(true)), Fill(io.head, io.body)) else SaveStep(s, Open(false))
  }

  lemma BakSteps(s: Sys, io: NvFs.Io)
    requires s.Valid() && s.Running() && s.saver.Writing? && s.saver.stage == BeforeBak
    ensures var id, image := s.saver.id, s.nv.parts[s.saver.id].toDisk.image;
            FileSteps(s, io)
              == s.(disks := s.disks[id := s.disks[id].(bak := NvFs.Put(s.disks[id].bak, image, io))],
                    saver := Writing(id, BeforeOrigin, s.saver.ok && NvFs.Reported(io, |image|)))
  {
    hide NvFs.Header;
  }

  lemma OriginSteps(s: Sys, io: NvFs.Io)
    requires s.Valid() && s.Running() && s.saver.Writing? && s.saver.stage == BeforeOrigin
    ensures var id, image := s.saver.id, s.nv.parts[s.saver.id].toDisk.image;
            FileSteps(s, io)
              == s.(disks := s.disks[id := s.disks[id].(origin := NvFs.Put(s.disks[id].origin, image, io))],
                    saver := Writing(id, Written, s.saver.ok && NvFs.Reported(io, |image|)))
  {
    hide NvFs.Header;
  }

  lemma ConcludeStep(s: Sys)
    requires s.Valid() && s.Running() && s.saver.Writing? && s.saver.stage == Written
    ensures var id := s.saver.id;
            SaveStep(s, Conclude)
              == (if s.saver.ok then SetPart(s, id, Saved(s.nv.parts[id])) else s).(saver := At(id + 1))
  {
  }

  /** The steps of the save thread for one marked partition add up to `saveToDisk` on it, whatever fails. */
  lemma SaveStepsAddUp(s: Sys, id: nat, bakIo: NvFs.Io, originIo: NvFs.Io)
    requires s.Valid() && s.Running() && s.saver == At(id) && id < |s.nv.parts| && s.nv.parts[id].backup.dirty != {}
    ensures var staged := SaveStep(SaveStep(s, Look(true)), Event.Stage);
            var (p, d) := SavePart(s.nv.parts[id], s.disks[id], bakIo, originIo);
            SaveStep(FileSteps(FileSteps(staged, bakIo), originIo), Conclude)
              == SetPart(s, id, p).(disks := s.disks[id := d], saver := At(id + 1))
  {
    hide NvFs.Put, NvFs.Reported, SaveStep, FileSteps;
    StageSteps(s, id);
    var staged := SaveStep(SaveStep(s, Look(true)), Event.Stage);
    BakSteps(staged, bakIo);
    OriginSteps(FileSteps(staged, bakIo), originIo);
    ConcludeStep(FileSteps(FileSteps(staged, bakIo), originIo));
  }

  /** `a[i] |= b[i]` for every word of a dirty table. */
  method OrInto(a: array<bv32>, b: array<bv32>)
    requires a != b && a.Length == b.Length == 32
    modifies a
    ensures Marks(a[..]) == old(Marks(a[..])) + Marks(b[..])
  {
    hide Marks, Or;
    ghost var before := a[..];
    for i := 0 to 32
      invariant forall j :: 0 <= j < 32 ==> a[j] == if j < i then Or(before[j], b[j]) else before[j]
    {
      a[i] := Or(a[i], b[i]);
    }
    MarksOr(before, b[..], a[..]);
  }

  method Clear(a: array<bv32>)
    requires a.Length == 32
    modifies a
    ensures Marks(a[..]) == {}
  {
    hide Marks;
    for i := 0 to 32
      invariant forall j :: 0 <= j < i ==> a[j] == 0
    {
      a[i] := 0;
    }
    MarksNothing(a[..]);
  }
}
