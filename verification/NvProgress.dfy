/** The daemon does its work: what is delivered can be brought to the disk, and what is on the disk is
    what the next start finds. */
module NvProgress {
  import opened Words
  import opened NvBuffer
  import opened NvSync
  import opened NvRequest
  import opened NvSystem
  import opened NvDurability
  import opened NvDelivery
  import opened NvWire
  import opened NvHistory
  import NvAtomicity
  import NvDaemon
  import NvPacket
  import NvFs

  /** Steps of the sync thread. */
  predicate Syncing(t: seq<Event>) {
    forall k :: 0 <= k < |t| ==> t[k].Recv? || t[k].Analyse?
  }

  /** The packets received in a run. */
  function Received(t: seq<Event>): seq<NvPacket.Raw> {
    if t == [] then [] else (if t[0].Recv? then [t[0].raw] else []) + Received(t[1..])
  }

  lemma {:induction false} ReceivedTwo(a: seq<Event>, b: seq<Event>)
    ensures Received(a + b) == Received(a) + Received(b)
    decreases |a|
  {
    if a == [] {
      assert a + b == b;
    } else {
      ReceivedTwo(a[1..], b);
      assert (a + b)[1..] == a[1..] + b;
    }
  }

  lemma {:induction false} ReceivedNothing(t: seq<Event>)
    requires forall k :: 0 <= k < |t| ==> !t[k].Recv?
    ensures Received(t) == []
    decreases |t|
  {
    if t != [] { ReceivedNothing(t[1..]); }
  }

  lemma {:induction false} RunCons(s: Sys, e: Event, t: seq<Event>)
    requires s.Valid()
    ensures Run(s, [e] + t) == if Step(s, e).None? then None else Run(Step(s, e).value, t)
    decreases |t|
  {
    hide Step;
    var all := [e] + t;
    if t == [] {
      assert all == [e] && [e][..0] == [];
    } else {
      assert all[..|all| - 1] == [e] + t[..|t| - 1];
      RunCons(s, e, t[..|t| - 1]);
    }
  }

  lemma {:induction false} RunAppend(s: Sys, a: seq<Event>, b: seq<Event>)
    requires s.Valid() && Run(s, a).Some?
    ensures Run(s, a + b) == Run(Run(s, a).value, b)
    decreases |b|
  {
    hide Step;
    if b == [] {
      assert a + b == a;
    } else {
      assert (a + b)[..|a + b| - 1] == a + b[..|b| - 1];
      RunAppend(s, a, b[..|b| - 1]);
    }
  }

  /** The rounds of the inner loop, one step each. */
  lemma {:induction false} AnalyseSteps(s: Sys) returns (t: seq<Event>)
    requires s.Valid() && s.Running() && Analyze(s.nv).Some?
    ensures Syncing(t) && Received(t) == [] && Run(s, t) == Some(s.(nv := Analyze(s.nv).value))
    decreases |s.nv.buf|, s.nv.sync.state
  {
    t := [];
    if s.nv.buf != [] {
      hide Iter;
      var s' := Step(s, Analyse).value;
      t := AnalyseSteps(s');
      RunCons(s, Analyse, t);
      ReceivedTwo([Analyse], t);
      t := [Analyse] + t;
    }
  }

  lemma {:induction false} PacketSteps(s: Sys, raws: seq<NvPacket.Raw>) returns (t: seq<Event>)
    requires s.Valid() && s.Running() && s.nv.buf == [] && OnPackets(s.nv, raws).Some?
    ensures Syncing(t) && Received(t) == raws && Run(s, t) == Some(s.(nv := OnPackets(s.nv, raws).value))
    decreases |raws|
  {
    t := [];
    if raws != [] {
      hide OnPacket;
      t := PacketStep(s, raws[0]);
      var rest := PacketSteps(Run(s, t).value, raws[1..]);
      RunAppend(s, t, rest);
      ReceivedTwo(t, rest);
      t := t + rest;
    }
  }

  /** One packet, received and analysed to its end. */
  lemma PacketStep(s: Sys, raw: NvPacket.Raw) returns (t: seq<Event>)
    requires s.Valid() && s.Running() && s.nv.buf == [] && OnPacket(s.nv, raw).Some?
    ensures Syncing(t) && Received(t) == [raw] && Run(s, t) == Some(s.(nv := OnPacket(s.nv, raw).value))
  {
    hide Receive, Analyze;
    t := AnalyseSteps(Step(s, Recv(raw)).value);
    RunCons(s, Recv(raw), t);
    ReceivedTwo([Recv(raw)], t);
    t := [Recv(raw)] + t;
  }

  /** The sync thread leaves the files, the save thread and the staging copies alone. */
  lemma {:induction false} SyncingTouches(s: Sys, t: seq<Event>)
    requires s.Valid() && s.Running() && AllPartsOk(s) && Syncing(t) && Run(s, t).Some?
    ensures AllPartsOk(Run(s, t).value) && AllSyncOnly(s.nv.parts, Run(s, t).value.nv.parts)
    ensures Run(s, t).value.Running()
    decreases |t|
  {
    if t != [] {
      var before, e := t[..|t| - 1], t[|t| - 1];
      SyncingTouches(s, before);
      hide AllPartsOk, SyncStep, AllSyncOnly;
      StepKeeps(Run(s, before).value, e);
      SyncTouches(Run(s, before).value.nv, e);
      SyncOnlyTwice(s.nv.parts, Run(s, before).value.nv.parts, Run(s, t).value.nv.parts);
    }
  }

  lemma SyncOnlyTwice(a: seq<Part>, b: seq<Part>, c: seq<Part>)
    requires AllSyncOnly(a, b) && AllSyncOnly(b, c)
    ensures AllSyncOnly(a, c)
  {
    forall i | 0 <= i < |a| ensures SyncOnly(a[i], c[i]) {
      assert SyncOnly(a[i], b[i]) && SyncOnly(b[i], c[i]);
    }
  }

  const FULL: NvFs.Io := NvFs.Writes(NvFs.HEAD, SECTOR * MAX_SECTORS)
  const FILL: Event := Fill(NvFs.HEAD, SECTOR * MAX_SECTORS)

  /** What `SaveStepsAddUp` adds up, as a run. */
  lemma SaveRun(s: Sys, id: nat) returns (t: seq<Event>)
    requires s.Valid() && s.Running() && s.saver == At(id) && id < |s.nv.parts| && s.nv.parts[id].backup.dirty != {}
    ensures SaveOnly(t) && AllWhole(t)
    ensures var (p, d) := NvDaemon.SavePart(s.nv.parts[id], s.disks[id], FULL, FULL);
            Run(s, t) == Some(SetPart(s, id, p).(disks := s.disks[id := d], saver := At(id + 1)))
  {
    hide SaveStep, NvDaemon.SavePart, Run;
    NvDaemon.SaveStepsAddUp(s, id, FULL, FULL);
    var s2 := SaveStep(SaveStep(s, Look(true)), Event.Stage);
    var s4 := SaveStep(SaveStep(s2, Open(true)), FILL);
    var last, half := [Open(true), FILL, Conclude], [Open(true), FILL, Open(true), FILL, Conclude];
    assert [Open(true), FILL] + last == half;
    t := [Look(true), Event.Stage, Open(true), FILL, Open(true), FILL, Conclude];
    assert [Look(true), Event.Stage] + half == t;
    TwoSaveSteps(s, Look(true), Event.Stage, half);
    TwoSaveSteps(s2, Open(true), FILL, last);
    TwoSaveSteps(s4, Open(true), FILL, [Conclude]);
    assert [Open(true), FILL] + [Conclude] == last;
    var s6 := SaveStep(SaveStep(s4, Open(true)), FILL);
    OneSaveStep(s6, Conclude, []);
    RunNothing(SaveStep(s6, Conclude));
    assert [Conclude] + [] == [Conclude];
  }

  /** A step of the save thread. */
  predicate Saves(e: Event) {
    e.Look? || e.Stage? || e.Open? || e.Fill? || e.Conclude?
  }

  lemma OneSaveStep(s: Sys, e: Event, t: seq<Event>)
    requires s.Valid() && s.Running() && Saves(e)
    ensures Run(s, [e] + t) == Run(SaveStep(s, e), t)
  {
    hide SaveStep;
    RunCons(s, e, t);
  }

  lemma TwoSaveSteps(s: Sys, e: Event, e': Event, t: seq<Event>)
    requires s.Valid() && s.Running() && Saves(e) && Saves(e')
    ensures Run(s, [e, e'] + t) == Run(SaveStep(SaveStep(s, e), e'), t)
  {
    hide SaveStep, Run;
    OneSaveStep(s, e, [e'] + t);
    OneSaveStep(SaveStep(s, e), e', t);
    assert [e] + ([e'] + t) == [e, e'] + t;
  }

  /** A save with whole writes leaves the committed image on the disk and no marks. */
  lemma SavedWhole(p: Part, d: NvFs.Disk)
    requires p.Valid() && p.backup.dirty != {}
    ensures var (p', d') := NvDaemon.SavePart(p, d, FULL, FULL);
            && p'.backup == Buf(p.backup.image, {}) && p'.toDisk == Buf(p.backup.image, {}) && p'.sctNum == p.sctNum
            && NvFs.HasValid(d', PartSize(p)) && NvFs.Stored(d', PartSize(p)) == p.backup.image
  {
    NvFs.PutValidity(d.origin, p.backup.image, FULL);
    NvFs.PutValidity(d.bak, p.backup.image, FULL);
    hide NvFs.Put, NvFs.CopyValid;
  }

  /** The image of partition `i` on the disk is its committed image. */
  ghost predicate OnDisk(s: Sys, i: nat)
    requires s.Valid() && i < |s.nv.parts|
  {
    var p, d := s.nv.parts[i], s.disks[i];
    && p.backup.dirty == {} && p.toDisk.dirty == {}
    && NvFs.HasValid(d, PartSize(p)) && NvFs.Stored(d, PartSize(p)) == p.backup.image
  }

  /** What a round of the save thread makes of partition `j`, if it is to write it: the committed image is staged
      and stored, and there are no marks left. */
  ghost predicate SavedIn(s: Sys, end: Sys, j: nat)
    requires s.Valid() && end.Valid() && j < |s.nv.parts| == |end.nv.parts|
  {
    var p, p', d := s.nv.parts[j], end.nv.parts[j], end.disks[j];
    && p'.backup == Buf(p.backup.image, {}) && p'.toDisk == Buf(p.backup.image, {}) && p'.sctNum == p.sctNum
    && NvFs.HasValid(d, PartSize(p)) && NvFs.Stored(d, PartSize(p)) == p.backup.image
  }

  /** The rest of a round, from partition `id` on: it writes exactly the partitions with marks in the committed
      copy, leaves the others alone, and the save thread is then waiting again. */
  ghost predicate RoundDone(s: Sys, id: nat, end: Sys)
    requires s.Valid()
  {
    && end.Valid() && end.Running() && end.saver.Resting? && |end.nv.parts| == |s.nv.parts|
    && forall j :: 0 <= j < |s.nv.parts| ==>
         if j >= id && s.nv.parts[j].backup.dirty != {} then SavedIn(s, end, j)
         else end.nv.parts[j] == s.nv.parts[j] && end.disks[j] == s.disks[j]
  }

  lemma {:induction false} RoundFrom(s: Sys, id: nat) returns (t: seq<Event>)
    requires s.Valid() && s.Running() && s.saver == At(id)
    ensures SaveOnly(t) && AllWhole(t) && Run(s, t).Some? && RoundDone(s, id, Run(s, t).value)
    decreases |s.nv.parts| - id
  {
    hide NvDaemon.SavePart, NvFs.Stored, NvFs.HasValid, Run;
    if id == |s.nv.parts| {
      t := [Look(false)];
      assert t == t + [];
      OneSaveStep(s, Look(false), []);
      RunNothing(s.(saver := Resting));
    } else if s.nv.parts[id].backup.dirty == {} {
      var s' := s.(saver := At(id + 1));
      t := RoundFrom(s', id + 1);
      OneSaveStep(s, Look(false), t);
      t := [Look(false)] + t;
    } else {
      t := SaveRun(s, id);
      SavedWhole(s.nv.parts[id], s.disks[id]);
      var s' := Run(s, t).value;
      var rest := RoundFrom(s', id + 1);
      RunAppend(s, t, rest);
      t := t + rest;
    }
  }

  /** One round of the save thread can bring every partition to the disk that is marked for saving, or has
      nothing left to save, and ends with the thread waiting again. */
  lemma RoundSaves(s: Sys) returns (t: seq<Event>)
    requires AllPartsOk(s) && s.Running() && s.saver.Resting?
    ensures SaveOnly(t) && AllWhole(t) && Run(s, t).Some?
    ensures Run(s, t).value.Running() && Run(s, t).value.saver.Resting?
    ensures forall i :: 0 <= i < |s.nv.parts| ==>
              && Run(s, t).value.nv.parts[i].backup == Buf(s.nv.parts[i].backup.image, {})
              && (s.nv.parts[i].toDisk.dirty == {} || s.nv.parts[i].backup.dirty != {} ==> OnDisk(Run(s, t).value, i))
  {
    hide NvFs.Stored, NvFs.HasValid, AllPartsOk, Run;
    PartsOkValid(s);
    t := RoundFrom(s.(saver := At(0)), 0);
    var end := Run(s.(saver := At(0)), t).value;
    OneWake(s, t);
    t := [Wake] + t;
    forall i | 0 <= i < |s.nv.parts| && s.nv.parts[i].backup.dirty == {} && s.nv.parts[i].toDisk.dirty == {} ensures OnDisk(end, i) {
      NothingToSave(s, i);
    }
  }

  lemma OneWake(s: Sys, t: seq<Event>)
    requires s.Valid() && s.Running() && s.saver.Resting?
    ensures Run(s, [Wake] + t) == Run(s.(saver := At(0)), t)
  {
    RunCons(s, Wake, t);
  }

  /** What is committed to partition `i` is marked for saving, or being written without a failure so far, or there
      is nothing left to save. */
  predicate Due(s: Sys, i: nat)
    requires s.Valid() && i < |s.nv.parts|
  {
    s.nv.parts[i].backup.dirty != {} || s.nv.parts[i].toDisk.dirty == {} || (SavingPart(s, i) && s.saver.ok)
  }

  /** The next step of a save thread that finishes its write and does not start another. */
  function NextSave(saver: Saver): (e: Event)
    ensures Saves(e) && Whole(e)
  {
    match saver
    case Seen(_) => Event.Stage
    case Writing(_, BeforeBak, _) => Open(true)
    case Writing(_, InBak, _) => FILL
    case Writing(_, BeforeOrigin, _) => Open(true)
    case Writing(_, InOrigin, _) => FILL
    case Writing(_, Written, _) => Conclude
    case _ => Look(false)
  }

  /** How far the save thread is from waiting. */
  function Ahead(s: Sys): nat
    requires s.Valid()
  {
    var n := |s.nv.parts|;
    match s.saver
    case Resting => 0
    case At(id) => 1 + 10 * (n - id)
    case Seen(id) => 10 * (n - id) - 3
    case Writing(id, BeforeBak, _) => 10 * (n - id) - 4
    case Writing(id, InBak, _) => 10 * (n - id) - 5
    case Writing(id, BeforeOrigin, _) => 10 * (n - id) - 6
    case Writing(id, InOrigin, _) => 10 * (n - id) - 7
    case Writing(id, Written, _) => 10 * (n - id) - 8
  }

  lemma FinishStep(s: Sys, i: nat)
    requires s.Valid() && s.Running() && !s.saver.Resting? && i < |s.nv.parts|
    ensures var s' := SaveStep(s, NextSave(s.saver));
            && Ahead(s') < Ahead(s) && (Due(s, i) ==> Due(s', i))
            && s'.nv.parts[i].backup.image == s.nv.parts[i].backup.image
  {
    hide NvFs.Put;
  }

  lemma WholeSaveSound(s: Sys, e: Event)
    requires s.Valid() && s.Running() && Saves(e) && Whole(e)
    ensures Sound(s, e)
  {
  }

  /** At any time, the save thread can finish what it is at. */
  lemma {:induction false} Finishes(s: Sys, i: nat) returns (t: seq<Event>)
    requires AllPartsOk(s) && s.Running() && i < |s.nv.parts| && Due(s, i)
    ensures SaveOnly(t) && AllWhole(t) && Run(s, t).Some?
    ensures var end := Run(s, t).value;
            && AllPartsOk(end) && end.Running() && end.saver.Resting? && Due(end, i)
            && end.nv.parts[i].backup.image == s.nv.parts[i].backup.image
    decreases Ahead(s)
  {
    hide Run, SaveStep, AllPartsOk, Due, Ahead, NextSave;
    PartsOkValid(s);
    if s.saver.Resting? {
      t := [];
      RunNothing(s);
    } else {
      var e := NextSave(s.saver);
      FinishStep(s, i);
      WholeSaveSound(s, e);
      StepKeeps(s, e);
      StepSaves(s, e);
      t := Finishes(SaveStep(s, e), i);
      OneSaveStep(s, e, t);
      t := [e] + t;
    }
  }

  lemma StepSaves(s: Sys, e: Event)
    requires s.Valid() && s.Running() && Saves(e)
    ensures Step(s, e) == Some(SaveStep(s, e))
  {
    hide SaveStep;
  }

  /** At any time, a partition whose committed image is due can be brought to the disk by the save thread alone. */
  lemma CanBeSaved(s: Sys, i: nat) returns (t: seq<Event>)
    requires AllPartsOk(s) && s.Running() && i < |s.nv.parts| && Due(s, i)
    ensures SaveOnly(t) && AllWhole(t) && Run(s, t).Some? && Run(s, t).value.Running()
    ensures OnDisk(Run(s, t).value, i) && Run(s, t).value.nv.parts[i].backup.image == s.nv.parts[i].backup.image
  {
    hide NvFs.Stored, NvFs.HasValid, AllPartsOk, Run, SaveOnly, AllWhole;
    PartsOkValid(s);
    var finish := Finishes(s, i);
    var save := RoundSaves(Run(s, finish).value);
    RunAppend(s, finish, save);
    t := finish + save;
    SavesJoin(finish, save);
  }

  lemma SavesJoin(a: seq<Event>, b: seq<Event>)
    requires SaveOnly(a) && AllWhole(a) && SaveOnly(b) && AllWhole(b)
    ensures SaveOnly(a + b) && AllWhole(a + b)
  {
  }

  lemma NothingToSave(s: Sys, i: nat)
    requires AllPartsOk(s) && s.Running() && i < |s.nv.parts|
    requires s.nv.parts[i].backup.dirty == {} && s.nv.parts[i].toDisk.dirty == {}
    ensures OnDisk(s, i)
  {
    assert PartOk(s, i);
    assert s.nv.parts[i].backup.image == s.nv.parts[i].toDisk.image;
  }

  /** Some run of the save thread alone brings the partition to the disk. */
  ghost predicate Savable(s: Sys, i: nat)
    requires s.Valid() && i < |s.nv.parts|
  {
    exists t :: SaveOnly(t) && Run(s, t).Some? && OnDisk(Run(s, t).value, i)
  }

  /** What is not due stays so, whatever the save thread does. */
  lemma {:induction false} NotDueStays(s: Sys, t: seq<Event>, i: nat)
    requires s.Valid() && s.Running() && i < |s.nv.parts| && !Due(s, i) && s.saver != Seen(i) && SaveOnly(t)
    ensures Run(s, t).Some? && Run(s, t).value.Running() && !Due(Run(s, t).value, i) && Run(s, t).value.saver != Seen(i)
    decreases |t|
  {
    if t != [] {
      var before, e := t[..|t| - 1], t[|t| - 1];
      assert forall k :: 0 <= k < |before| ==> before[k] == t[k];
      NotDueStays(s, before, i);
      hide Run, Due;
      RunLastStep(s, t);
      NotDueStep(Run(s, before).value, e, i);
    }
  }

  lemma NotDueStep(s: Sys, e: Event, i: nat)
    requires s.Valid() && s.Running() && i < |s.nv.parts| && !Due(s, i) && s.saver != Seen(i)
    ensures !Due(SaveStep(s, e), i) && SaveStep(s, e).saver != Seen(i)
  {
    hide NvFs.Put, NvFs.Reported;
  }

  lemma SeenIsDue(s: Sys, i: nat)
    requires AllPartsOk(s) && i < |s.nv.parts| && s.saver == Seen(i)
    ensures Due(s, i)
  {
    assert PartOk(s, i);
  }

  /** At any time, the save thread can bring a partition to the disk exactly if what is committed to it is due:
      a partition whose last write has failed stays as it is until it is committed to again. */
  lemma SavableIff(s: Sys, i: nat)
    requires AllPartsOk(s) && s.Running() && i < |s.nv.parts|
    ensures Savable(s, i) <==> Due(s, i)
  {
    hide Run, AllPartsOk;
    PartsOkValid(s);
    if Due(s, i) {
      var t := CanBeSaved(s, i);
    } else {
      if s.saver == Seen(i) { SeenIsDue(s, i); }
      forall t | SaveOnly(t) && Run(s, t).Some? ensures !OnDisk(Run(s, t).value, i) {
        NotDueStays(s, t, i);
      }
    }
  }

  /** A request delivered at any time, whatever the save thread is at, can be brought to the disk: there are steps of the
      two threads, without a failure, after which the stored image is the committed one with the
      request applied. The request may come after a write that failed, which it makes good. */
  lemma RequestReachesDisk(s: Sys, ids: seq<u32>, part: nat, r: Request, first: NvPacket.Raw, raws: seq<NvPacket.Raw>,
                           chunks: seq<seq<u8>>) returns (t: seq<Event>)
    requires AllPartsOk(s) && s.Running() && s.nv.buf == []
    requires NvAtomicity.IdsMatch(ids, s.nv.parts) && NvAtomicity.OthersClean(s.nv)
    requires part < |s.nv.parts| && Deliverable(ids, part, s.nv.parts[part].sctNum, r)
    requires r.bodies != [] || Due(s, part)
    requires Arrives(r, first, raws, chunks) && NvPacket.Group(first) != s.nv.q.grp
    ensures AllWhole(t) && NoCrash(t) && Received(t) == [first] + raws && Run(s, t).Some? && Run(s, t).value.Running()
    ensures OnDisk(Run(s, t).value, part)
    ensures Run(s, t).value.nv.parts[part].backup.image == ApplyBodies(s.nv.parts[part].backup.image, r.bodies)
  {
    hide AllPartsOk, Deliverable, Arrives, OnDisk, Run, ChannelMarks, Touched;
    PartsOkValid(s);
    if r.bodies != [] { TouchedSome(ids, part, s.nv.parts[part].sctNum, r); }
    DeliveredRequestCommits(ids, part, r, s.nv, first, raws, chunks);
    var deliver := PacketSteps(s, [first] + raws);
    SyncingTouches(s, deliver);
    SyncOnlyStays(s.nv.parts, Run(s, deliver).value.nv.parts, part);
    var save := CanBeSaved(Run(s, deliver).value, part);
    RunAppend(s, deliver, save);
    t := deliver + save;
    SyncingSound(deliver, save);
    ReceivedTwo(deliver, save);
    ReceivedNothing(save);
  }

  /** From the modem to the disk. At any time, whatever the save thread is at, blocks that the modem asks to be stored,
      in a request laid out byte by byte and sent under a new group, can be brought to the disk: there are
      steps in which just these packets are received and nothing fails, after which every byte of the
      stored image is that of the last block that covers it, or what was last committed. */
  lemma SentReachesDisk(s: Sys, ids: seq<u32>, part: nat, first: u32, unused: u32, blocks: seq<Block>,
                        ecc: u32, grp: u32) returns (t: seq<Event>, chunks: seq<seq<u8>>)
    requires AllPartsOk(s) && s.Running() && s.nv.buf == [] && grp != s.nv.q.grp
    requires NvAtomicity.IdsMatch(ids, s.nv.parts) && NvAtomicity.OthersClean(s.nv)
    requires part < |ids| && (forall j :: 0 <= j < part ==> ids[j] != ids[part])
    requires BlocksOk(blocks, s.nv.parts[part].sctNum) && blocks != []
    ensures (forall k :: 0 <= k < |chunks| ==> |chunks[k]| <= 1024)
            && Concat(chunks) == Wire(Encoded(ids[part], first, unused, blocks))
    ensures AllWhole(t) && NoCrash(t) && Received(t) == Packets(ecc, grp, 0, chunks) && Run(s, t).Some?
    ensures var end, p := Run(s, t).value, s.nv.parts[part];
            var size := PartSize(p);
            && end.Running() && NvFs.HasValid(end.disks[part], size)
            && forall x :: 0 <= x < size ==> NvFs.Stored(end.disks[part], size)[x] == ByteAfter(p.backup.image, blocks, x)
  {
    hide AllPartsOk, Arrives, Run, Word32, Token, Packet, CutsOk, NvFs.HasValid, NvFs.Stored, ByteAfter, ApplyBodies, Wire;
    var r, p := Encoded(ids[part], first, unused, blocks), s.nv.parts[part];
    PartsOkValid(s);
    EncodedDeliverable(ids, part, p.sctNum, first, unused, blocks);
    DeliverableParts(ids, part, p.sctNum, r);
    EncodedLengths(ids[part], first, unused, blocks);
    CanBeSent(r);
    chunks := [r.head] + OneEach(r, 0);
    SentArrives(ids[part], first, unused, blocks, ecc, grp, chunks);
    var raw, raws := Packet(ecc, grp, 0, chunks[0]), Packets(ecc, grp, 1, chunks[1..]);
    t := RequestReachesDisk(s, ids, part, r, raw, raws, chunks);
    SizesStay(s, t, part);
    forall x | 0 <= x < |p.backup.image|
      ensures ApplyBodies(p.backup.image, r.bodies)[x] == ByteAfter(p.backup.image, blocks, x)
    {
      BodiesStore(p.backup.image, first + 1, unused, blocks, p.sctNum, x);
    }
  }

  lemma {:induction false} SizesStay(s: Sys, t: seq<Event>, i: nat)
    requires s.Valid() && i < |s.nv.parts| && Run(s, t).Some?
    ensures Run(s, t).value.nv.parts[i].sctNum == s.nv.parts[i].sctNum
    decreases |t|
  {
    if t != [] {
      var n := |t| - 1;
      SizesStay(s, t[..n], i);
      hide Run;
      RunLast(s, t);
      SizeStays(Run(s, t[..n]).value, t[n], i);
    }
  }

  lemma SizeStays(s: Sys, e: Event, i: nat)
    requires s.Valid() && i < |s.nv.parts|
    ensures Step(s, e).Some? ==> Step(s, e).value.nv.parts[i].sctNum == s.nv.parts[i].sctNum
  {
    hide NvFs.Put, NvFs.Reported, NvFs.Read, DiskAfterCrash, SyncStep;
    SyncTouches(s.nv, e);
    if SyncStep(s.nv, e).Some? { assert SyncOnly(s.nv.parts[i], SyncStep(s.nv, e).value.parts[i]); }
  }

  lemma AfterFailure(s: Sys)
    requires AllPartsOk(s) && s.Running() && s.nv.buf == []
    ensures var s' := s.(nv := Lose(s.nv)); Step(s, ChannelFails) == Some(s') && AllPartsOk(s') && s'.Running()
  {
    hide AllPartsOk, Lose;
    PartsOkValid(s);
    AfterFailureSound(s);
    StepKeeps(s, ChannelFails);
  }

  lemma AfterFailureSound(s: Sys)
    requires s.Valid()
    ensures Sound(s, ChannelFails)
  {
  }

  /** So can one that comes after a failure of the channel, under every group but 0xFFFF_FFFF, whatever was
      open when the channel failed. */
  lemma ReachesDiskAfterFailure(s: Sys, ids: seq<u32>, part: nat, r: Request, first: NvPacket.Raw, raws: seq<NvPacket.Raw>,
                                chunks: seq<seq<u8>>) returns (t: seq<Event>)
    requires AllPartsOk(s) && s.Running() && s.nv.buf == []
    requires NvAtomicity.IdsMatch(ids, s.nv.parts) && NvAtomicity.OthersClean(s.nv)
    requires part < |s.nv.parts| && Deliverable(ids, part, s.nv.parts[part].sctNum, r)
    requires r.bodies != [] || Due(s, part)
    requires Arrives(r, first, raws, chunks) && NvPacket.Group(first) != 0xFFFF_FFFF
    ensures t != [] && t[0] == ChannelFails && AllWhole(t) && NoCrash(t) && Received(t) == [first] + raws
    ensures Run(s, t).Some? && Run(s, t).value.Running() && OnDisk(Run(s, t).value, part)
    ensures Run(s, t).value.nv.parts[part].backup.image == ApplyBodies(s.nv.parts[part].backup.image, r.bodies)
  {
    hide AllPartsOk, Deliverable, Arrives, OnDisk, Run, Lose, NvPacket.Classify;
    ArrivesFirst(r, first, raws, chunks);
    PartsOkValid(s);
    AfterFailure(s);
    LoseSettles(ids, s.nv);
    StartsAfterLose(s.nv, first);
    NvPacket.AcceptedInOrder(Lose(s.nv).q, first);
    var s' := s.(nv := Lose(s.nv));
    t := RequestReachesDisk(s', ids, part, r, first, raws, chunks);
    RunCons(s, ChannelFails, t);
    ReceivedTwo([ChannelFails], t);
    t := [ChannelFails] + t;
  }

  lemma PartsOkValid(s: Sys)
    requires AllPartsOk(s)
    ensures s.Valid() && s.nv.Valid()
  {
  }

  lemma SyncOnlyStays(a: seq<Part>, b: seq<Part>, i: nat)
    requires AllSyncOnly(a, b) && i < |a|
    ensures b[i].toDisk == a[i].toDisk && a[i].backup.dirty <= b[i].backup.dirty
  {
    assert SyncOnly(a[i], b[i]);
  }

  lemma SyncingSound(a: seq<Event>, b: seq<Event>)
    requires Syncing(a) && SaveOnly(b) && AllWhole(b)
    ensures AllWhole(a + b) && NoCrash(a + b)
  {
  }

  // ---- starting up ---------------------------------------------------------------------------

  /** The start-up reads of all partitions; `ios` is what becomes of the repairs. */
  function Reads(orders: seq<bool>, ios: seq<NvFs.Io>): (t: seq<Event>)
    requires |ios| == |orders|
    ensures |t| == |orders|
  {
    var n := |orders|;
    if n == 0 then [] else Reads(orders[..n - 1], ios[..n - 1]) + [BootRead(orders[n - 1], ios[n - 1])]
  }

  /** `end` is `s` with its first partitions read. */
  ghost predicate Booted(s: Sys, orders: seq<bool>, end: Sys)
    requires s.Valid()
  {
    && end.Valid() && |end.nv.parts| == |s.nv.parts| && end.boot == |orders|
    && end.saver.Resting? && end.nv.sync == IDLE && end.nv.buf == [] && end.nv.q == NvPacket.INITIAL
    && forall i :: 0 <= i < |s.nv.parts| ==>
         if i < end.boot then end.nv.parts[i] == Loaded(s.nv.parts[i].partId, s.nv.parts[i].sctNum, ImagesRead(s, orders)[i])
         else end.nv.parts[i] == s.nv.parts[i] && end.disks[i] == s.disks[i]
  }

  lemma BootedNext(s: Sys, orders: seq<bool>, end: Sys, originFirst: bool, io: NvFs.Io)
    requires s.Valid() && Booted(s, orders, end) && !end.Running()
    ensures Booted(s, orders + [originFirst], BootStep(end, originFirst, io))
  {
    hide NvFs.Found, NvFs.Repair, NvFs.Rewrite;
    var orders', end' := orders + [originFirst], BootStep(end, originFirst, io);
    forall i | 0 <= i < |s.nv.parts|
      ensures if i < end'.boot then end'.nv.parts[i] == Loaded(s.nv.parts[i].partId, s.nv.parts[i].sctNum, ImagesRead(s, orders')[i])
              else end'.nv.parts[i] == s.nv.parts[i] && end'.disks[i] == s.disks[i]
    {
      if i < |orders| { assert orders'[i] == orders[i]; }
    }
  }

  lemma {:induction false} BootRuns(s: Sys, orders: seq<bool>, ios: seq<NvFs.Io>)
    requires Off(s) && |orders| <= |s.nv.parts| && |ios| == |orders|
    ensures Run(s, Reads(orders, ios)).Some? && Booted(s, orders, Run(s, Reads(orders, ios)).value)
    decreases |orders|
  {
    hide Booted, BootStep, Off, Run, Step;
    OffOk(s);
    var n := |orders|;
    if n == 0 {
      OffBooted(s);
    } else {
      var before, last, earlier := orders[..n - 1], orders[n - 1], Reads(orders[..n - 1], ios[..n - 1]);
      BootRuns(s, before, ios[..n - 1]);
      assert Reads(orders, ios) == earlier + [BootRead(last, ios[n - 1])];
      assert Reads(orders, ios)[..n - 1] == earlier;
      var mid := Run(s, earlier).value;
      BootedPart(s, before, mid);
      RunLastStep(s, Reads(orders, ios));
      BootReadStep(mid, last, ios[n - 1]);
      BootedNext(s, before, mid, last, ios[n - 1]);
      assert before + [last] == orders;
    }
  }

  lemma BootReadStep(s: Sys, originFirst: bool, io: NvFs.Io)
    requires s.Valid() && !s.Running()
    ensures Step(s, BootRead(originFirst, io)) == Some(BootStep(s, originFirst, io))
  {
    hide BootStep;
  }

  lemma OffBooted(s: Sys)
    requires Off(s)
    ensures Run(s, []) == Some(s) && Booted(s, [], s)
  {
    RunNothing(s);
  }

  lemma BootedPart(s: Sys, orders: seq<bool>, end: Sys)
    requires s.Valid() && Booted(s, orders, end)
    ensures end.Valid() && |end.nv.parts| == |s.nv.parts| && (end.Running() <==> |orders| == |s.nv.parts|)
  {
  }

  /** Every machine starts, whatever its files hold, in whichever order they are read, and whatever becomes of
      the repairs, with the images that are read; and the image of a partition with a valid copy, read
      in the documented order or harmlessly in the other, is the stored one; without a valid copy it is
      what the file tried last holds, as far as that reaches, and 0xFF behind it. */
  lemma StartsUp(s: Sys, orders: seq<bool>, ios: seq<NvFs.Io>)
    requires Off(s) && |orders| == |ios| == |s.nv.parts|
    ensures var end := Run(s, Reads(orders, ios));
            && end.Some? && end.value.Running()
            && forall i :: 0 <= i < |s.nv.parts| ==>
                 end.value.nv.parts[i] == Loaded(s.nv.parts[i].partId, s.nv.parts[i].sctNum, ImagesRead(s, orders)[i])
    ensures forall i :: 0 <= i < |s.nv.parts| ==>
              var d, size := s.disks[i], PartSize(s.nv.parts[i]);
              NvFs.HasValid(d, size) && (orders[i] || NvFs.Harmless(d, size)) ==> ImagesRead(s, orders)[i] == NvFs.Stored(d, size)
    ensures forall i, k :: 0 <= i < |s.nv.parts| && 0 <= k < PartSize(s.nv.parts[i]) ==>
              !NvFs.HasValid(s.disks[i], PartSize(s.nv.parts[i])) ==>
              ImagesRead(s, orders)[i][k] == NvFs.ByteOr(if orders[i] then s.disks[i].bak else s.disks[i].origin, k)
  {
    hide NvFs.Found, NvFs.HasValid, NvFs.Stored, NvFs.Harmless, Run;
    BootRuns(s, orders, ios);
    forall i | 0 <= i < |orders| && NvFs.HasValid(s.disks[i], PartSize(s.nv.parts[i]))
               && (orders[i] || NvFs.Harmless(s.disks[i], PartSize(s.nv.parts[i])))
      ensures ImagesRead(s, orders)[i] == NvFs.Stored(s.disks[i], PartSize(s.nv.parts[i]))
    {
      NvFs.ReadSettles(s.disks[i], PartSize(s.nv.parts[i]), orders[i], ios[i]);
    }
    forall i, k | 0 <= i < |orders| && 0 <= k < PartSize(s.nv.parts[i]) && !NvFs.HasValid(s.disks[i], PartSize(s.nv.parts[i]))
      ensures ImagesRead(s, orders)[i][k] == NvFs.ByteOr(if orders[i] then s.disks[i].bak else s.disks[i].origin, k)
    {
      BlindByte(s.disks[i], PartSize(s.nv.parts[i]), orders[i], k);
    }
  }

  lemma BlindByte(d: NvFs.Disk, size: nat, originFirst: bool, k: nat)
    requires k < size && !NvFs.HasValid(d, size)
    ensures NvFs.Found(d, size, originFirst)[k] == NvFs.ByteOr(if originFirst then d.bak else d.origin, k)
  {
    hide NvFs.Found, NvFs.CopyValid;
    NvFs.FoundBytes(d, size, originFirst, k);
  }
}
