/** Whole runs of the daemon, crashes included: every image is explained by a log of complete requests. */
module NvHistory {
  import opened Words
  import opened NvBuffer
  import opened NvSync
  import opened NvRequest
  import opened NvSystem
  import opened NvAtomicity
  import opened NvDurability
  import NvPacket
  import NvFs

  /** A partition image after the requests of a log, in order. */
  ghost function ApplyLog(base: seq<u8>, log: seq<Commit>): (r: seq<u8>)
    ensures |r| == |base|
  {
    if log == [] then base
    else ApplyBodies(ApplyLog(base, log[..|log| - 1]), log[|log| - 1].req.bodies)
  }

  lemma ApplyLogSnoc(base: seq<u8>, log: seq<Commit>, c: Commit)
    ensures ApplyLog(base, log + [c]) == ApplyBodies(ApplyLog(base, log), c.req.bodies)
  {
    assert (log + [c])[..|log|] == log;
  }

  function Ids(s: Sys): (r: seq<u32>)
    ensures |r| == |s.nv.parts|
  {
    seq(|s.nv.parts|, i requires 0 <= i < |s.nv.parts| => s.nv.parts[i].partId)
  }

  // ---- a request in a run -----------------------------------------------------------------

  /** After `k` steps the daemon has a request of group `grp` open. */
  ghost predicate BusyAt(s0: Sys, trace: seq<Event>, k: nat, grp: u32)
    requires s0.Valid() && k <= |trace|
  {
    var r := Run(s0, trace[..k]);
    r.Some? && r.value.nv.sync.busy && r.value.nv.q.grp == grp
  }

  /** Step `k` is a packet that the sequencer accepts. */
  ghost predicate TakenAt(s0: Sys, trace: seq<Event>, k: nat)
    requires s0.Valid() && k < |trace|
  {
    var r := Run(s0, trace[..k]);
    r.Some? && r.value.Running() && Takes(r.value.nv, trace[k])
  }

  /** Step `k` is a packet that starts a group. */
  ghost predicate StartsAt(s0: Sys, trace: seq<Event>, k: nat)
    requires s0.Valid() && k < |trace|
  {
    var r := Run(s0, trace[..k]);
    r.Some? && r.value.Running() && Starts(r.value.nv, trace[k])
  }

  ghost predicate IsPiece(ps: seq<Piece>, k: nat) {
    exists j :: 0 <= j < |ps| && ps[j].at == k
  }

  /** From the first of the packets `ps` up to step `until` the daemon has had one request open, without a break;
      the packets it has accepted in that time are exactly `ps`, of which the first one started the group
      and the others continued it. */
  ghost predicate Unbroken(s0: Sys, trace: seq<Event>, ps: seq<Piece>, grp: u32, until: nat)
    requires s0.Valid() && until <= |trace|
  {
    && ps != []
    && (forall k :: ps[0].at < k <= until ==> BusyAt(s0, trace, k, grp))
    && (forall j :: 0 <= j < |ps| ==>
          ps[j].at < until && TakenAt(s0, trace, ps[j].at) && (StartsAt(s0, trace, ps[j].at) <==> j == 0))
    && (forall k :: ps[0].at <= k < until && TakenAt(s0, trace, k) ==> IsPiece(ps, k))
  }

  lemma PrefixGrows(trace: seq<Event>, e: Event, k: nat)
    requires k <= |trace|
    ensures (trace + [e])[..k] == trace[..k]
  {
  }

  lemma AtGrows(s0: Sys, trace: seq<Event>, e: Event, k: nat, grp: u32)
    requires s0.Valid() && k <= |trace|
    ensures BusyAt(s0, trace + [e], k, grp) == BusyAt(s0, trace, k, grp)
    ensures k < |trace| ==> TakenAt(s0, trace + [e], k) == TakenAt(s0, trace, k)
    ensures k < |trace| ==> StartsAt(s0, trace + [e], k) == StartsAt(s0, trace, k)
  {
    hide Run, Takes, Starts;
    PrefixGrows(trace, e, k);
  }

  lemma UnbrokenGrows(s0: Sys, trace: seq<Event>, e: Event, ps: seq<Piece>, grp: u32, until: nat)
    requires s0.Valid() && until <= |trace| && Unbroken(s0, trace, ps, grp, until)
    ensures Unbroken(s0, trace + [e], ps, grp, until)
  {
    hide BusyAt, TakenAt, StartsAt, IsPiece;
    forall k | 0 <= k <= until ensures BusyAt(s0, trace + [e], k, grp) == BusyAt(s0, trace, k, grp) {
      AtGrows(s0, trace, e, k, grp);
    }
    forall k | 0 <= k < until
      ensures TakenAt(s0, trace + [e], k) == TakenAt(s0, trace, k)
      ensures StartsAt(s0, trace + [e], k) == StartsAt(s0, trace, k)
    {
      AtGrows(s0, trace, e, k, grp);
    }
  }

  lemma SamePieces(ps: seq<Piece>, qs: seq<Piece>, k: nat)
    requires SameAts(ps, qs)
    ensures IsPiece(ps, k) <==> IsPiece(qs, k)
  {
    if j :| 0 <= j < |ps| && ps[j].at == k {
      assert qs[j].at == k;
    }
  }

  lemma UnbrokenSame(s0: Sys, trace: seq<Event>, ps: seq<Piece>, qs: seq<Piece>, grp: u32, until: nat)
    requires s0.Valid() && until <= |trace| && Unbroken(s0, trace, ps, grp, until) && SameAts(qs, ps)
    ensures Unbroken(s0, trace, qs, grp, until)
  {
    hide BusyAt, TakenAt, StartsAt, IsPiece;
    forall k | ps[0].at <= k < until && TakenAt(s0, trace, k) ensures IsPiece(qs, k) {
      SamePieces(qs, ps, k);
    }
  }

  lemma WholePrefix(trace: seq<Event>, e: Event)
    ensures var trace' := trace + [e];
            trace'[..|trace|] == trace && trace'[..|trace| + 1] == trace' && trace'[|trace|] == e && |trace'| == |trace| + 1
  {
  }

  /** What is true after the last step. */
  lemma BusyLast(s0: Sys, trace: seq<Event>, e: Event, s': Sys)
    requires s0.Valid() && Run(s0, trace + [e]) == Some(s') && s'.nv.sync.busy
    ensures BusyAt(s0, trace + [e], |trace| + 1, s'.nv.q.grp)
  {
    hide Run;
    WholePrefix(trace, e);
  }

  lemma TakenLast(s0: Sys, trace: seq<Event>, e: Event, s: Sys)
    requires s0.Valid() && Run(s0, trace) == Some(s) && s.Running()
    ensures TakenAt(s0, trace + [e], |trace|) <==> Takes(s.nv, e)
    ensures StartsAt(s0, trace + [e], |trace|) <==> Starts(s.nv, e)
  {
    hide Run, Takes, Starts;
    WholePrefix(trace, e);
  }

  /** The open request over one more step. */
  lemma UnbrokenStep(s0: Sys, trace: seq<Event>, e: Event, s: Sys, s': Sys, ps: seq<Piece>, ps': seq<Piece>)
    requires s0.Valid() && Run(s0, trace) == Some(s) && Run(s0, trace + [e]) == Some(s') && s.Running()
    requires s.nv.sync.busy ==> Unbroken(s0, trace, ps, s.nv.q.grp, |trace|)
    requires s'.nv.sync.busy && Follows(trace, e, s.nv, ps, s'.nv, ps')
    ensures Unbroken(s0, trace + [e], ps', s'.nv.q.grp, |trace| + 1)
  {
    hide Unbroken, BusyAt, TakenAt, StartsAt, Takes, Starts, Run;
    BusyLast(s0, trace, e, s');
    TakenLast(s0, trace, e, s);
    if Starts(s.nv, e) {
      StartTakes(s.nv, e);
      UnbrokenStart(s0, trace + [e], ps', s'.nv.q.grp, |trace|);
    } else {
      UnbrokenGrows(s0, trace, e, ps, s.nv.q.grp, |trace|);
      UnbrokenOn(s0, trace + [e], ps, ps', s.nv.q.grp, |trace|);
    }
  }

  lemma StartTakes(nv: Nv, e: Event)
    requires Starts(nv, e)
    ensures Takes(nv, e)
  {
  }

  lemma UnbrokenStart(s0: Sys, trace: seq<Event>, ps: seq<Piece>, grp: u32, n: nat)
    requires s0.Valid() && |trace| == n + 1 && |ps| == 1 && ps[0].at == n
    requires BusyAt(s0, trace, n + 1, grp) && TakenAt(s0, trace, n) && StartsAt(s0, trace, n)
    ensures Unbroken(s0, trace, ps, grp, n + 1)
  {
    hide BusyAt, TakenAt, StartsAt;
    PieceAt(ps, 0);
  }

  lemma UnbrokenOn(s0: Sys, trace: seq<Event>, ps: seq<Piece>, ps': seq<Piece>, grp: u32, n: nat)
    requires s0.Valid() && |trace| == n + 1 && Unbroken(s0, trace, ps, grp, n)
    requires BusyAt(s0, trace, n + 1, grp) && !StartsAt(s0, trace, n)
    requires if TakenAt(s0, trace, n) then |ps'| == |ps| + 1 && SameAts(ps'[..|ps|], ps) && ps'[|ps|].at == n
             else SameAts(ps', ps)
    ensures Unbroken(s0, trace, ps', grp, n + 1)
  {
    hide BusyAt, TakenAt, StartsAt, IsPiece;
    AtsOn(ps, ps');
    forall k | ps'[0].at <= k < n + 1 && TakenAt(s0, trace, k) ensures IsPiece(ps', k) {
      if k == n {
        PieceAt(ps', |ps|);
      } else {
        PieceKept(ps, ps', k);
      }
    }
  }

  lemma AtsOn(ps: seq<Piece>, ps': seq<Piece>)
    requires |ps| <= |ps'| && SameAts(ps'[..|ps|], ps)
    ensures forall j :: 0 <= j < |ps| ==> ps'[j].at == ps[j].at
  {
    forall j | 0 <= j < |ps| ensures ps'[j].at == ps[j].at {
      assert ps'[..|ps|][j] == ps'[j];
    }
  }

  lemma PieceAt(ps: seq<Piece>, j: nat)
    requires j < |ps|
    ensures IsPiece(ps, ps[j].at)
  {
  }

  lemma PieceKept(ps: seq<Piece>, ps': seq<Piece>, k: nat)
    requires IsPiece(ps, k) && |ps| <= |ps'| && SameAts(ps'[..|ps|], ps)
    ensures IsPiece(ps', k)
  {
    var j :| 0 <= j < |ps| && ps[j].at == k;
    assert ps'[j].at == ps'[..|ps|][j].at == k;
  }

  /** A complete request for partition `part`, byte for byte what its packets carried, and open in the daemon from
      the first of them to the step that committed it: it has not failed on the way. */
  ghost predicate CommitIn(s0: Sys, trace: seq<Event>, part: nat, c: Commit)
    requires s0.Valid()
  {
    && CommitOk(trace, Ids(s0), part, c)
    && c.end < |trace| && trace[c.end].Analyse? && Unbroken(s0, trace, c.pieces, c.grp, c.end)
  }

  function First(c: Commit): nat
    requires c.pieces != []
  {
    c.pieces[0].at
  }

  /** Such requests, one after the other. */
  ghost predicate LogOk(s0: Sys, trace: seq<Event>, part: nat, log: seq<Commit>)
    requires s0.Valid()
  {
    && (forall j :: 0 <= j < |log| ==> CommitIn(s0, trace, part, log[j]))
    && (forall j, k :: 0 <= j < k < |log| ==> log[j].end < First(log[k]))
  }

  lemma CommitInGrows(s0: Sys, trace: seq<Event>, e: Event, part: nat, c: Commit)
    requires s0.Valid() && CommitIn(s0, trace, part, c)
    ensures CommitIn(s0, trace + [e], part, c)
  {
    hide CommitOk, Unbroken;
    CommitOkGrows(trace, e, Ids(s0), part, c);
    UnbrokenGrows(s0, trace, e, c.pieces, c.grp, c.end);
  }

  lemma LogOkGrows(s0: Sys, trace: seq<Event>, e: Event, part: nat, log: seq<Commit>)
    requires s0.Valid() && LogOk(s0, trace, part, log)
    ensures LogOk(s0, trace + [e], part, log)
  {
    forall j | 0 <= j < |log| ensures CommitIn(s0, trace + [e], part, log[j]) {
      CommitInGrows(s0, trace, e, part, log[j]);
    }
  }

  /** All requests of the log were committed before step `at`. */
  ghost predicate Before(log: seq<Commit>, at: nat) {
    forall j :: 0 <= j < |log| ==> log[j].end < at
  }

  lemma LogIsPast(s0: Sys, trace: seq<Event>, part: nat, log: seq<Commit>)
    requires s0.Valid() && LogOk(s0, trace, part, log)
    ensures Before(log, |trace|)
  {
    forall j | 0 <= j < |log| ensures log[j].end < |trace| {
      assert CommitIn(s0, trace, part, log[j]);
    }
  }

  lemma LogOkSnoc(s0: Sys, trace: seq<Event>, part: nat, log: seq<Commit>, c: Commit)
    requires s0.Valid() && LogOk(s0, trace, part, log) && CommitIn(s0, trace, part, c) && Before(log, First(c))
    ensures LogOk(s0, trace, part, log + [c])
  {
    hide CommitOk, Unbroken;
    var log' := log + [c];
    forall j | 0 <= j < |log'| ensures CommitIn(s0, trace, part, log'[j]) {
      if j < |log| { assert CommitIn(s0, trace, part, log[j]); }
    }
    forall j, k | 0 <= j < k < |log'| ensures log'[k].pieces != [] && log'[j].end < First(log'[k]) {
      HasPieces(s0, trace, part, log'[k]);
      assert log'[j] == log[j];
    }
  }

  lemma HasPieces(s0: Sys, trace: seq<Event>, part: nat, c: Commit)
    requires s0.Valid() && CommitIn(s0, trace, part, c)
    ensures c.pieces != []
  {
    hide CommitOk;
  }

  // ---- where an image comes from ------------------------------------------------------------

  /** The order in which a start-up read, or one that a crash interrupts, tries the files. */
  function OrderOf(e: Event): bool
    requires e.BootRead? || e.Crash?
  {
    if e.BootRead? then e.originFirst else e.order
  }

  /** Step `k` reads partition `i` without finding a valid copy, and gets `image`. */
  ghost predicate BlindAt(s0: Sys, trace: seq<Event>, k: nat, i: nat, image: seq<u8>)
    requires s0.Valid() && k < |trace|
  {
    var r := Run(s0, trace[..k]);
    && r.Some? && !r.value.Running() && r.value.boot == i && (trace[k].BootRead? || trace[k].Crash?)
    && var d, size := r.value.disks[i], PartSize(r.value.nv.parts[i]);
       !NvFs.HasValid(d, size) && image == NvFs.Found(d, size, OrderOf(trace[k]))
  }

  /** An image that a valid copy held at power-on, or that was read when no copy was valid. */
  ghost predicate BaseOk(s0: Sys, trace: seq<Event>, i: nat, base: seq<u8>)
    requires s0.Valid() && i < |s0.nv.parts|
  {
    var d, size := s0.disks[i], PartSize(s0.nv.parts[i]);
    || (NvFs.CopyValid(d.origin, size) && NvFs.Payload(d.origin, size) == base)
    || (NvFs.CopyValid(d.bak, size) && NvFs.Payload(d.bak, size) == base)
    || exists k :: 0 <= k < |trace| && BlindAt(s0, trace, k, i, base)
  }

  lemma BaseOkGrows(s0: Sys, trace: seq<Event>, e: Event, i: nat, base: seq<u8>)
    requires s0.Valid() && i < |s0.nv.parts| && BaseOk(s0, trace, i, base)
    ensures BaseOk(s0, trace + [e], i, base)
  {
    hide Run, NvFs.CopyValid, NvFs.Found;
    if k :| 0 <= k < |trace| && BlindAt(s0, trace, k, i, base) {
      PrefixGrows(trace, e, k);
      assert (trace + [e])[k] == trace[k];
      assert BlindAt(s0, trace + [e], k, i, base);
    }
  }

  /** Where an image comes from: a base, and requests applied to it. */
  datatype Tale = Tale(base: seq<u8>, log: seq<Commit>)

  ghost predicate Tells(s0: Sys, trace: seq<Event>, i: nat, t: Tale, image: seq<u8>)
    requires s0.Valid() && i < |s0.nv.parts|
  {
    image == ApplyLog(t.base, t.log) && BaseOk(s0, trace, i, t.base) && LogOk(s0, trace, i, t.log)
  }

  lemma TellsGrows(s0: Sys, trace: seq<Event>, e: Event, i: nat, t: Tale, image: seq<u8>)
    requires s0.Valid() && i < |s0.nv.parts| && Tells(s0, trace, i, t, image)
    ensures Tells(s0, trace + [e], i, t, image)
  {
    hide BaseOk, LogOk, ApplyLog;
    BaseOkGrows(s0, trace, e, i, t.base);
    LogOkGrows(s0, trace, e, i, t.log);
  }

  lemma TellsMore(s0: Sys, trace: seq<Event>, i: nat, t: Tale, image: seq<u8>, c: Commit)
    requires s0.Valid() && i < |s0.nv.parts| && Tells(s0, trace, i, t, image)
    requires CommitIn(s0, trace, i, c) && Before(t.log, First(c))
    ensures Tells(s0, trace, i, Tale(t.base, t.log + [c]), ApplyBodies(image, c.req.bodies))
  {
    hide BaseOk, LogOk, CommitOk, Unbroken;
    LogOkSnoc(s0, trace, i, t.log, c);
    ApplyLogSnoc(t.base, t.log, c);
  }

  lemma TellsBase(s0: Sys, trace: seq<Event>, i: nat, base: seq<u8>)
    requires s0.Valid() && i < |s0.nv.parts| && BaseOk(s0, trace, i, base)
    ensures Tells(s0, trace, i, Tale(base, []), base)
  {
    hide BaseOk;
  }

  /** The tales of the committed image, of the staged one, and of the two files of a partition. */
  datatype History = History(ram: Tale, staged: Tale, origin: Tale, bak: Tale)

  /** What `h` says about partition `i`: every image in memory and every valid file is explained. */
  ghost predicate Explained(s0: Sys, trace: seq<Event>, s: Sys, i: nat, h: History)
    requires s0.Valid() && s.Valid() && i < |s.nv.parts| == |s0.nv.parts|
  {
    var p, d := s.nv.parts[i], s.disks[i];
    var size := PartSize(p);
    && (i < s.boot ==> Tells(s0, trace, i, h.ram, p.backup.image) && Tells(s0, trace, i, h.staged, p.toDisk.image))
    && (NvFs.CopyValid(d.origin, size) ==> Tells(s0, trace, i, h.origin, NvFs.Payload(d.origin, size)))
    && (NvFs.CopyValid(d.bak, size) ==> Tells(s0, trace, i, h.bak, NvFs.Payload(d.bak, size)))
    && (SavingPart(s, i) && s.saver.stage == InBak ==> h.bak == h.staged)
    && (SavingPart(s, i) && s.saver.stage == InOrigin ==> h.origin == h.staged && !NvFs.CopyValid(d.origin, size))
  }

  lemma ExplainedGrows(s0: Sys, trace: seq<Event>, e: Event, s: Sys, i: nat, h: History)
    requires s0.Valid() && s.Valid() && i < |s.nv.parts| == |s0.nv.parts| && Explained(s0, trace, s, i, h)
    ensures Explained(s0, trace + [e], s, i, h)
  {
    hide Tells, NvFs.CopyValid;
    var p, d := s.nv.parts[i], s.disks[i];
    var size := PartSize(p);
    if i < s.boot {
      TellsGrows(s0, trace, e, i, h.ram, p.backup.image);
      TellsGrows(s0, trace, e, i, h.staged, p.toDisk.image);
    }
    if NvFs.CopyValid(d.origin, size) { TellsGrows(s0, trace, e, i, h.origin, NvFs.Payload(d.origin, size)); }
    if NvFs.CopyValid(d.bak, size) { TellsGrows(s0, trace, e, i, h.bak, NvFs.Payload(d.bak, size)); }
  }

  /** `x` is `t` with more requests. */
  predicate AtLeast(x: Tale, t: Tale) {
    x.base == t.base && t.log <= x.log
  }

  /** What is in memory, and what the next start finds in order, goes on from `t`. */
  ghost predicate Keeps(t: Tale, s: Sys, i: nat, h: History)
    requires s.Valid() && i < |s.nv.parts|
  {
    var d, size := s.disks[i], PartSize(s.nv.parts[i]);
    && (i < s.boot ==> AtLeast(h.ram, t))
    && (SavingPart(s, i) ==> AtLeast(h.staged, t))
    && (NvFs.CopyValid(d.origin, size) ==> AtLeast(h.origin, t))
    && (!NvFs.CopyValid(d.origin, size) && NvFs.CopyValid(d.bak, size) ==> AtLeast(h.bak, t))
  }

  datatype Witness = Witness(o: Pending, ps: seq<Piece>, hs: seq<History>)

  /** The requests in memory were committed before the open one came. */
  ghost predicate OpenIsLatest(s: Sys, w: Witness) {
    s.nv.sync.busy ==> w.ps != [] && forall i :: 0 <= i < |w.hs| ==> Before(w.hs[i].ram.log, w.ps[0].at)
  }

  /** `w` explains the state `s` that the run `trace` has led to from `s0`. */
  ghost predicate Good(s0: Sys, trace: seq<Event>, s: Sys, w: Witness) {
    && s0.Valid() && Run(s0, trace) == Some(s) && |w.hs| == |s.nv.parts|
    && SyncInv(trace, Ids(s0), s.nv, w.o, w.ps)
    && (s.nv.sync.busy ==> Unbroken(s0, trace, w.ps, s.nv.q.grp, |trace|))
    && OpenIsLatest(s, w)
    && forall i :: 0 <= i < |w.hs| ==> Explained(s0, trace, s, i, w.hs[i])
  }

  /** Whatever the histories of `w` go on from, those of `w'` go on from as well. */
  ghost predicate AllKept(s: Sys, w: Witness, s': Sys, w': Witness)
    requires s.Valid() && s'.Valid()
  {
    && |w.hs| == |w'.hs| == |s.nv.parts| == |s'.nv.parts|
    && forall i, t :: 0 <= i < |w.hs| && Keeps(t, s, i, w.hs[i]) ==> Keeps(t, s', i, w'.hs[i])
  }

  /** No partition has been read anew. */
  ghost predicate SameBases(w: Witness, w': Witness) {
    |w.hs| == |w'.hs| && forall i :: 0 <= i < |w.hs| ==> w'.hs[i].ram.base == w.hs[i].ram.base
  }

  // ---- steps of the sync thread ---------------------------------------------------------

  function SyncHistory(nv: Nv, i: nat, h: History, c: Option<Commit>): History {
    if c.Some? && i == nv.sync.id then h.(ram := Tale(h.ram.base, h.ram.log + [c.value])) else h
  }

  lemma SyncOne(s0: Sys, trace: seq<Event>, s: Sys, nv': Nv, i: nat, h: History, c: Option<Commit>)
    requires s0.Valid() && s.Valid() && s.Running() && s.(nv := nv').Valid()
    requires i < |s.nv.parts| == |s0.nv.parts| == |nv'.parts| && Explained(s0, trace, s, i, h)
    requires SyncOnly(s.nv.parts[i], nv'.parts[i])
    requires c.Some? && i == s.nv.sync.id ==>
               && CommitIn(s0, trace, i, c.value) && Before(h.ram.log, First(c.value))
               && nv'.parts[i].backup.image == ApplyBodies(s.nv.parts[i].backup.image, c.value.req.bodies)
    requires !(c.Some? && i == s.nv.sync.id) ==> nv'.parts[i].backup.image == s.nv.parts[i].backup.image
    ensures Explained(s0, trace, s.(nv := nv'), i, SyncHistory(s.nv, i, h, c))
    ensures forall t :: Keeps(t, s, i, h) ==> Keeps(t, s.(nv := nv'), i, SyncHistory(s.nv, i, h, c))
  {
    hide Tells, NvFs.CopyValid, CommitIn, Before;
    if c.Some? && i == s.nv.sync.id {
      TellsMore(s0, trace, i, h.ram, s.nv.parts[i].backup.image, c.value);
    }
  }

  /** The commit of a step, seen from the run behind it. */
  lemma CommitHere(s0: Sys, trace: seq<Event>, e: Event, s: Sys, ps: seq<Piece>, c: Commit)
    requires s0.Valid() && s.nv.sync.id >= 0 && CommitOk(trace, Ids(s0), s.nv.sync.id, c)
    requires ClosesHere(trace, s.nv, ps, c) && e.Analyse? && Unbroken(s0, trace, ps, s.nv.q.grp, |trace|)
    ensures CommitIn(s0, trace + [e], s.nv.sync.id, c) && First(c) == ps[0].at
  {
    hide CommitOk;
    UnbrokenSame(s0, trace, ps, c.pieces, c.grp, |trace|);
    UnbrokenGrows(s0, trace, e, c.pieces, c.grp, |trace|);
    CommitOkGrows(trace, e, Ids(s0), s.nv.sync.id, c);
  }

  /** The open request is behind everything that is in memory. */
  lemma SyncLatest(s0: Sys, trace: seq<Event>, e: Event, s: Sys, w: Witness, nv': Nv, w': Witness)
    requires Good(s0, trace, s, w) && s.Running() && |w'.hs| == |w.hs|
    requires nv'.sync.busy && Follows(trace, e, s.nv, w.ps, nv', w'.ps)
    requires forall i :: 0 <= i < |w.hs| ==> w'.hs[i].ram == w.hs[i].ram
    ensures OpenIsLatest(s.(nv := nv'), w')
  {
    hide Before, SyncInv, LogOk, Run, BaseOk, ApplyLog, Unbroken;
    if w'.ps[0].at == |trace| {
      forall i | 0 <= i < |w.hs| ensures Before(w.hs[i].ram.log, |trace|) {
        assert Explained(s0, trace, s, i, w.hs[i]);
        LogIsPast(s0, trace, i, w.hs[i].ram.log);
      }
    }
  }

  lemma SyncGood(s0: Sys, trace: seq<Event>, s: Sys, w: Witness, e: Event) returns (w': Witness)
    requires Good(s0, trace, s, w) && s.Running() && (e.Recv? || e.ChannelFails? || e.Analyse?) && SyncStep(s.nv, e).Some?
    ensures Good(s0, trace + [e], s.(nv := SyncStep(s.nv, e).value), w')
    ensures AllKept(s, w, s.(nv := SyncStep(s.nv, e).value), w') && SameBases(w, w')
  {
    hide Explained, SyncInv, CommitOk, SyncOnly, SameBackups, Commits, SyncStep, Unbroken, OpenIsLatest, Keeps, Run;
    hide CommitIn, Follows, ClosesHere;
    var nv' := SyncStep(s.nv, e).value;
    var s' := s.(nv := nv');
    SyncTouches(s.nv, e);
    var o', ps', c := SyncStepInv(trace, Ids(s0), s.nv, e, w.o, w.ps);
    var n := |w.hs|;
    w' := Witness(o', ps', seq(n, i requires 0 <= i < n => SyncHistory(s.nv, i, w.hs[i], c)));
    RunNext(s0, trace, e, s, s');
    if c.Some? {
      CommitHere(s0, trace, e, s, w.ps, c.value);
    }
    forall i | 0 <= i < n
      ensures Explained(s0, trace + [e], s', i, w'.hs[i])
      ensures forall t :: Keeps(t, s, i, w.hs[i]) ==> Keeps(t, s', i, w'.hs[i])
    {
      ExplainedGrows(s0, trace, e, s, i, w.hs[i]);
      SyncImages(trace, Ids(s0), s.nv, e, w.ps, nv', ps', c, i);
      LatestOne(s, w, i);
      SyncOne(s0, trace + [e], s, nv', i, w.hs[i], c);
    }
    if nv'.sync.busy {
      UnbrokenStep(s0, trace, e, s, s', w.ps, ps');
      SyncLatest(s0, trace, e, s, w, nv', w');
    } else {
      NotOpen(s', w');
    }
  }

  lemma NotOpen(s: Sys, w: Witness)
    requires !s.nv.sync.busy
    ensures OpenIsLatest(s, w)
  {
  }

  lemma LatestOne(s: Sys, w: Witness, i: nat)
    requires OpenIsLatest(s, w) && i < |w.hs|
    ensures s.nv.sync.busy ==> w.ps != [] && Before(w.hs[i].ram.log, w.ps[0].at)
  {
  }

  /** The committed image of one partition over a step of the sync thread. */
  lemma SyncImages(trace: seq<Event>, ids: seq<u32>, nv: Nv, e: Event, ps: seq<Piece>, nv': Nv, ps': seq<Piece>,
                   c: Option<Commit>, i: nat)
    requires Stepped(trace, ids, nv, e, ps, nv', ps', c) && AllSyncOnly(nv.parts, nv'.parts) && i < |nv.parts|
    ensures |nv'.parts| == |nv.parts| && SyncOnly(nv.parts[i], nv'.parts[i])
    ensures nv'.parts[i].backup.image
            == if c.Some? && i == nv.sync.id then ApplyBodies(nv.parts[i].backup.image, c.value.req.bodies)
               else nv.parts[i].backup.image
  {
    hide SyncOnly, CommitOk, Follows, ClosesHere;
  }

  lemma RunNext(s0: Sys, trace: seq<Event>, e: Event, s: Sys, s': Sys)
    requires s0.Valid() && Run(s0, trace) == Some(s) && Step(s, e) == Some(s')
    ensures Run(s0, trace + [e]) == Some(s')
  {
    hide Step;
    assert (trace + [e])[..|trace|] == trace;
  }

  // ---- steps of the save thread ---------------------------------------------------------

  /** The file whose turn it is in stage `stage` of writing partition `i` is truncated. */
  predicate Truncates(s: Sys, e: Event, i: nat, stage: Stage) {
    SavingPart(s, i) && s.saver.stage == stage && e.Open? && e.opens
  }

  /** It is filled. */
  predicate Fills(s: Sys, e: Event, i: nat, stage: Stage) {
    SavingPart(s, i) && s.saver.stage == stage && e.Fill?
  }

  predicate Stages(s: Sys, e: Event, i: nat) {
    s.saver.Seen? && s.saver.id == i && e.Stage?
  }

  /** A step of the save thread, as partition `i` sees it. */
  lemma SaveEffect(s: Sys, e: Event, i: nat)
    requires s.Valid() && s.Running() && i < |s.nv.parts|
    ensures var s' := SaveStep(s, e);
            var p, p' := s.nv.parts[i], s'.nv.parts[i];
            && s'.boot == s.boot && p'.backup.image == p.backup.image && p'.sctNum == p.sctNum
            && p'.toDisk.image == if Stages(s, e, i) then p.backup.image else p.toDisk.image
    ensures var s' := SaveStep(s, e);
            && (SavingPart(s', i) ==> SavingPart(s, i) || Stages(s, e, i))
            && (SavingPart(s', i) && s'.saver.stage == InBak ==>
                  Truncates(s, e, i, BeforeBak) || (SavingPart(s, i) && s.saver.stage == InBak))
            && (SavingPart(s', i) && s'.saver.stage == InOrigin ==>
                  Truncates(s, e, i, BeforeOrigin) || (SavingPart(s, i) && s.saver.stage == InOrigin && !e.Fill?))
  {
    hide NvFs.Put, NvFs.Reported;
  }

  lemma SaveFiles(s: Sys, e: Event, i: nat)
    requires s.Valid() && s.Running() && i < |s.nv.parts|
    ensures var d, d', image := s.disks[i], SaveStep(s, e).disks[i], s.nv.parts[i].toDisk.image;
            && d'.bak == (if Truncates(s, e, i, BeforeBak) then Some([])
                          else if Fills(s, e, i, InBak) then NvFs.Put(d.bak, image, NvFs.Writes(e.head, e.body))
                          else d.bak)
            && d'.origin == (if Truncates(s, e, i, BeforeOrigin) then Some([])
                             else if Fills(s, e, i, InOrigin) then NvFs.Put(d.origin, image, NvFs.Writes(e.head, e.body))
                             else d.origin)
  {
    hide NvFs.Put, NvFs.Reported;
  }

  lemma TruncatedInvalid(size: nat)
    ensures !NvFs.CopyValid(Some([]), size)
  {
  }

  /** Exactly when a step of the save thread leaves a valid copy of partition `i`: a truncated file is not
      valid, a filled one is if it was filled whole, and any other stays as it was. */
  lemma CopyKeptIff(s: Sys, e: Event, i: nat)
    requires s.Valid() && s.Running() && i < |s.nv.parts|
    ensures var d, size := s.disks[i], PartSize(s.nv.parts[i]);
            NvFs.HasValid(SaveStep(s, e).disks[i], size) <==>
              || (if Truncates(s, e, i, BeforeOrigin) then false
                  else if Fills(s, e, i, InOrigin) then NvFs.Reported(NvFs.Writes(e.head, e.body), size)
                  else NvFs.CopyValid(d.origin, size))
              || (if Truncates(s, e, i, BeforeBak) then false
                  else if Fills(s, e, i, InBak) then NvFs.Reported(NvFs.Writes(e.head, e.body), size)
                  else NvFs.CopyValid(d.bak, size))
  {
    hide NvFs.CopyValid, NvFs.Put, NvFs.Reported, SaveStep;
    SaveFiles(s, e, i);
    TruncatedInvalid(PartSize(s.nv.parts[i]));
    if e.Fill? {
      var image := s.nv.parts[i].toDisk.image;
      NvFs.PutValidity(s.disks[i].bak, image, NvFs.Writes(e.head, e.body));
      NvFs.PutValidity(s.disks[i].origin, image, NvFs.Writes(e.head, e.body));
    }
  }

  /** The tale of a backup copy that stays while the origin file is truncated. */
  ghost function BakTale(s: Sys, i: nat, h: History): Tale
    requires s.Valid() && i < |s.nv.parts|
  {
    var p, d := s.nv.parts[i], s.disks[i];
    var size := PartSize(p);
    if !NvFs.CopyValid(d.bak, size) then h.bak
    else if NvFs.Payload(d.bak, size) == p.toDisk.image then h.staged
    else if NvFs.CopyValid(d.origin, size) && NvFs.Payload(d.bak, size) == NvFs.Payload(d.origin, size) then h.origin
    else h.bak
  }

  ghost function SaveHistory(s: Sys, e: Event, i: nat, h: History): History
    requires s.Valid() && i < |s.nv.parts|
  {
    if Stages(s, e, i) then h.(staged := h.ram)
    else if Truncates(s, e, i, BeforeBak) then h.(bak := h.staged)
    else if Truncates(s, e, i, BeforeOrigin) then h.(origin := h.staged, bak := BakTale(s, i, h))
    else h
  }

  lemma SaveOne(s0: Sys, trace: seq<Event>, s: Sys, e: Event, i: nat, h: History)
    requires s0.Valid() && s.Valid() && s.Running() && i < |s.nv.parts| == |s0.nv.parts| && Explained(s0, trace, s, i, h)
    ensures Explained(s0, trace, SaveStep(s, e), i, SaveHistory(s, e, i, h))
  {
    hide Tells, NvFs.CopyValid, NvFs.Put, NvFs.Reported, SaveStep;
    SaveEffect(s, e, i);
    SaveFiles(s, e, i);
    var image, size := s.nv.parts[i].toDisk.image, PartSize(s.nv.parts[i]);
    TruncatedInvalid(size);
    if e.Fill? {
      NvFs.PutValidity(s.disks[i].bak, image, NvFs.Writes(e.head, e.body));
      NvFs.PutValidity(s.disks[i].origin, image, NvFs.Writes(e.head, e.body));
    }
  }

  lemma SaveKeepsOne(s0: Sys, trace: seq<Event>, s: Sys, e: Event, i: nat, h: History, t: Tale)
    requires s0.Valid() && s.Valid() && s.Running() && i < |s.nv.parts| == |s0.nv.parts| && Explained(s0, trace, s, i, h)
    requires Keeps(t, s, i, h) && Safe(s, e)
    ensures Keeps(t, SaveStep(s, e), i, SaveHistory(s, e, i, h))
  {
    hide Tells, NvFs.CopyValid, NvFs.Put, NvFs.Reported, SaveStep, AtLeast;
    SaveEffect(s, e, i);
    SaveFiles(s, e, i);
    TruncatedInvalid(PartSize(s.nv.parts[i]));
  }

  /** The save thread does not touch what the sync thread works on. */
  lemma SaveSyncInv(trace: seq<Event>, ids: seq<u32>, s: Sys, e: Event, o: Pending, ps: seq<Piece>)
    requires s.Valid() && s.Running() && SyncInv(trace, ids, s.nv, o, ps)
    ensures SyncInv(trace + [e], ids, SaveStep(s, e).nv, o, ps)
  {
    hide PacketOk, NvFs.Put, NvFs.Reported, HeadOk, BodiesOk;
    SyncInvGrows(trace, e, ids, s.nv, o, ps);
  }

  lemma SaveLeavesSync(s: Sys, e: Event)
    requires s.Valid() && s.Running()
    ensures var nv' := SaveStep(s, e).nv; nv'.q == s.nv.q && nv'.sync == s.nv.sync && nv'.buf == s.nv.buf
  {
    hide NvFs.Put, NvFs.Reported;
  }

  /** A step that is not one of the sync thread. */
  lemma OtherFollows(trace: seq<Event>, e: Event, nv: Nv, nv': Nv, ps: seq<Piece>)
    requires !e.Recv? && nv.sync.busy && nv'.q == nv.q
    ensures Follows(trace, e, nv, ps, nv', ps)
  {
  }

  lemma SaveGood(s0: Sys, trace: seq<Event>, s: Sys, w: Witness, e: Event) returns (w': Witness)
    requires Good(s0, trace, s, w) && s.Running() && !e.Crash? && !e.Recv? && !e.ChannelFails? && !e.Analyse?
    ensures Good(s0, trace + [e], SaveStep(s, e), w')
    ensures SameBases(w, w') && (Safe(s, e) ==> AllKept(s, w, SaveStep(s, e), w'))
  {
    hide Explained, SyncInv, SaveStep, Unbroken, Keeps, Run, Safe, Follows;
    var s' := SaveStep(s, e);
    SaveSyncInv(trace, Ids(s0), s, e, w.o, w.ps);
    SaveLeavesSync(s, e);
    RunNext(s0, trace, e, s, s');
    var n := |w.hs|;
    w' := w.(hs := seq(n, i requires 0 <= i < n => SaveHistory(s, e, i, w.hs[i])));
    forall i | 0 <= i < n ensures Explained(s0, trace + [e], s', i, w'.hs[i]) {
      ExplainedGrows(s0, trace, e, s, i, w.hs[i]);
      SaveOne(s0, trace + [e], s, e, i, w.hs[i]);
    }
    if Safe(s, e) {
      forall i, t | 0 <= i < n && Keeps(t, s, i, w.hs[i]) ensures Keeps(t, s', i, w'.hs[i]) {
        SaveKeepsOne(s0, trace, s, e, i, w.hs[i], t);
      }
    }
    if s.nv.sync.busy {
      OtherFollows(trace, e, s.nv, s'.nv, w.ps);
      UnbrokenStep(s0, trace, e, s, s', w.ps, w.ps);
    }
  }

  // ---- crashes and restarts -------------------------------------------------------------

  /** The tale of what a start-up read of partition `i` finds. */
  ghost function ReadTale(s: Sys, i: nat, order: bool, h: History): Tale
    requires s.Valid() && i < |s.nv.parts|
  {
    var d, size := s.disks[i], PartSize(s.nv.parts[i]);
    var image := NvFs.Found(d, size, order);
    if !NvFs.HasValid(d, size) then Tale(image, [])
    else if NvFs.CopyValid(d.origin, size) && NvFs.Payload(d.origin, size) == image then h.origin
    else h.bak
  }

  /** The file tried first, when it is going to be written. */
  ghost function RepairHistory(s: Sys, i: nat, order: bool, h: History): History
    requires s.Valid() && i < |s.nv.parts|
  {
    if NvFs.Repair(s.disks[i], PartSize(s.nv.parts[i]), order).None? then h
    else if order then h.(origin := ReadTale(s, i, order, h))
    else h.(bak := ReadTale(s, i, order, h))
  }

  lemma ReadTells(s0: Sys, trace: seq<Event>, e: Event, s: Sys, i: nat, h: History)
    requires s0.Valid() && Run(s0, trace) == Some(s) && i < |s.nv.parts| == |s0.nv.parts| && Explained(s0, trace + [e], s, i, h)
    requires !s.Running() && s.boot == i && (e.BootRead? || e.Crash?)
    ensures Tells(s0, trace + [e], i, ReadTale(s, i, OrderOf(e), h), NvFs.Found(s.disks[i], PartSize(s.nv.parts[i]), OrderOf(e)))
  {
    hide Tells, NvFs.CopyValid, NvFs.Found, NvFs.Repair, Run, BaseOk;
    var d, size := s.disks[i], PartSize(s.nv.parts[i]);
    if NvFs.HasValid(d, size) {
      NvFs.FoundValid(d, size, OrderOf(e));
    } else {
      BlindBase(s0, trace, e, s, i);
      TellsBase(s0, trace + [e], i, NvFs.Found(d, size, OrderOf(e)));
    }
  }

  lemma BlindBase(s0: Sys, trace: seq<Event>, e: Event, s: Sys, i: nat)
    requires s0.Valid() && Run(s0, trace) == Some(s) && i < |s.nv.parts| == |s0.nv.parts|
    requires !s.Running() && s.boot == i && (e.BootRead? || e.Crash?) && !NvFs.HasValid(s.disks[i], PartSize(s.nv.parts[i]))
    ensures BaseOk(s0, trace + [e], i, NvFs.Found(s.disks[i], PartSize(s.nv.parts[i]), OrderOf(e)))
  {
    hide NvFs.HasValid, NvFs.Found, Run;
    WholePrefix(trace, e);
    assert BlindAt(s0, trace + [e], |trace|, i, NvFs.Found(s.disks[i], PartSize(s.nv.parts[i]), OrderOf(e)));
  }

  /** What a crash makes of the files of partition `i`. */
  lemma CrashFiles(s: Sys, i: nat, cut: Option<nat>, order: bool)
    requires s.Valid() && i < |s.nv.parts|
    ensures var d, d', image, size := s.disks[i], DiskAfterCrash(s, i, cut, order), s.nv.parts[i].toDisk.image, PartSize(s.nv.parts[i]);
            && (d'.bak != d.bak && NvFs.CopyValid(d'.bak, size) ==>
                  || (SavingPart(s, i) && s.saver.stage == InBak && NvFs.Payload(d'.bak, size) == image)
                  || (s.boot == i && !order && NvFs.Repair(d, size, order).Some? && NvFs.Payload(d'.bak, size) == NvFs.Found(d, size, order)))
            && (d'.origin != d.origin && NvFs.CopyValid(d'.origin, size) ==>
                  || (SavingPart(s, i) && s.saver.stage == InOrigin && NvFs.Payload(d'.origin, size) == image)
                  || (s.boot == i && order && NvFs.Repair(d, size, order).Some? && NvFs.Payload(d'.origin, size) == NvFs.Found(d, size, order)))
            && (d'.origin != d.origin ==>
                  || (SavingPart(s, i) && s.saver.stage == InOrigin)
                  || (s.boot == i && order && NvFs.Repair(d, size, order).Some?))
  {
    hide NvFs.CopyValid, NvFs.Repair, NvFs.Found, NvFs.Copy, Torn;
    var d, p := s.disks[i], s.nv.parts[i];
    if cut.Some? {
      if SavingPart(s, i) {
        TornValidity(p.toDisk.image, cut.value);
      } else if s.boot == i && NvFs.Repair(d, PartSize(p), order).Some? {
        TornBytes(NvFs.Repair(d, PartSize(p), order).value, NvFs.Found(d, PartSize(p), order), cut.value);
      }
    }
  }

  ghost function CrashHistory(s: Sys, order: bool, i: nat, h: History): History
    requires s.Valid() && i < |s.nv.parts|
  {
    if !s.Running() && s.boot == i then RepairHistory(s, i, order, h) else h
  }

  /** A file that is going to be written over was not valid. */
  lemma RepairsInvalid(d: NvFs.Disk, size: nat, order: bool)
    ensures NvFs.Repair(d, size, order).Some? ==> !NvFs.CopyValid(NvFs.First(d, order), size)
  {
  }

  lemma CrashOne(s0: Sys, trace: seq<Event>, e: Event, s: Sys, i: nat, h: History)
    requires s0.Valid() && Run(s0, trace) == Some(s) && i < |s.nv.parts| == |s0.nv.parts| && Explained(s0, trace + [e], s, i, h)
    requires e.Crash?
    ensures Explained(s0, trace + [e], CrashStep(s, e.cut, e.order), i, CrashHistory(s, e.order, i, h))
  {
    hide Tells, NvFs.CopyValid, NvFs.HasValid, NvFs.Found, NvFs.Repair, Run, DiskAfterCrash, ReadTale;
    CrashFiles(s, i, e.cut, e.order);
    RepairsInvalid(s.disks[i], PartSize(s.nv.parts[i]), e.order);
    if !s.Running() && s.boot == i {
      ReadTells(s0, trace, e, s, i, h);
    }
  }

  lemma CrashKeepsOne(s0: Sys, trace: seq<Event>, s: Sys, e: Event, i: nat, h: History, t: Tale)
    requires s0.Valid() && s.Valid() && i < |s.nv.parts| == |s0.nv.parts| && Explained(s0, trace, s, i, h)
    requires e.Crash? && Keeps(t, s, i, h) && Safe(s, e)
    ensures Keeps(t, CrashStep(s, e.cut, e.order), i, CrashHistory(s, e.order, i, h))
  {
    hide Tells, NvFs.CopyValid, NvFs.Found, NvFs.Repair, DiskAfterCrash, AtLeast;
    var d, size := s.disks[i], PartSize(s.nv.parts[i]);
    CrashFiles(s, i, e.cut, e.order);
    RepairsInvalid(d, size, e.order);
    if NvFs.HasValid(d, size) {
      NvFs.FoundValid(d, size, e.order);
    }
  }

  lemma CrashGood(s0: Sys, trace: seq<Event>, s: Sys, w: Witness, e: Event) returns (w': Witness)
    requires Good(s0, trace, s, w) && e.Crash?
    ensures Good(s0, trace + [e], CrashStep(s, e.cut, e.order), w')
    ensures Safe(s, e) ==> AllKept(s, w, CrashStep(s, e.cut, e.order), w')
  {
    hide Explained, Unbroken, Keeps, Run, Safe, PacketOk, ProgressOk, DiskAfterCrash;
    var s' := CrashStep(s, e.cut, e.order);
    RunNext(s0, trace, e, s, s');
    var n := |w.hs|;
    w' := Witness(NOTHING, [], seq(n, i requires 0 <= i < n => CrashHistory(s, e.order, i, w.hs[i])));
    forall i | 0 <= i < n ensures Explained(s0, trace + [e], s', i, w'.hs[i]) {
      ExplainedGrows(s0, trace, e, s, i, w.hs[i]);
      CrashOne(s0, trace, e, s, i, w.hs[i]);
    }
    if Safe(s, e) {
      forall i, t | 0 <= i < n && Keeps(t, s, i, w.hs[i]) ensures Keeps(t, s', i, w'.hs[i]) {
        CrashKeepsOne(s0, trace, s, e, i, w.hs[i], t);
      }
    }
  }

  /** What a start-up read makes of the files. */
  lemma BootFiles(d: NvFs.Disk, size: nat, order: bool, io: NvFs.Io)
    ensures var d' := NvFs.Read(d, size, order, io).0;
            && NvFs.Second(d', order) == NvFs.Second(d, order)
            && (NvFs.Repair(d, size, order).None? ==> d' == d)
            && (NvFs.Repair(d, size, order).Some? ==>
                  && !NvFs.CopyValid(NvFs.First(d, order), size)
                  && (NvFs.CopyValid(NvFs.First(d', order), size) ==>
                        NvFs.Payload(NvFs.First(d', order), size) == NvFs.Found(d, size, order)))
  {
    hide NvFs.CopyValid, NvFs.Repair, NvFs.Found, NvFs.Rewrite;
    RepairsInvalid(d, size, order);
    if NvFs.Repair(d, size, order).Some? {
      var first, header, image := NvFs.First(d, order), NvFs.Repair(d, size, order).value, NvFs.Found(d, size, order);
      if io.Writes? {
        NvFs.RewriteValidity(first, header, image, io);
      } else {
        NvFs.RewriteFails(first, header, image);
      }
    }
  }

  ghost function BootHistory(s: Sys, order: bool, i: nat, h: History): History
    requires s.Valid() && i < |s.nv.parts|
  {
    if s.boot != i then h
    else
      var t := ReadTale(s, i, order, h);
      RepairHistory(s, i, order, h).(ram := t, staged := t)
  }

  lemma BootOne(s0: Sys, trace: seq<Event>, e: Event, s: Sys, i: nat, h: History)
    requires s0.Valid() && Run(s0, trace) == Some(s) && i < |s.nv.parts| == |s0.nv.parts| && Explained(s0, trace + [e], s, i, h)
    requires e.BootRead? && !s.Running()
    ensures Explained(s0, trace + [e], BootStep(s, e.originFirst, e.repair), i, BootHistory(s, e.originFirst, i, h))
  {
    hide Tells, NvFs.CopyValid, NvFs.HasValid, NvFs.Found, NvFs.Repair, NvFs.Rewrite, Run, ReadTale;
    if i == s.boot {
      ReadTells(s0, trace, e, s, i, h);
      BootFiles(s.disks[i], PartSize(s.nv.parts[i]), e.originFirst, e.repair);
    }
  }

  lemma BootKeepsOne(s: Sys, e: Event, i: nat, h: History, t: Tale)
    requires s.Valid() && i < |s.nv.parts| && e.BootRead? && !s.Running() && Keeps(t, s, i, h) && Sound(s, e)
    ensures Keeps(t, BootStep(s, e.originFirst, e.repair), i, BootHistory(s, e.originFirst, i, h))
  {
    hide NvFs.CopyValid, NvFs.Found, NvFs.Repair, NvFs.Rewrite, AtLeast;
    if i == s.boot {
      var d, size := s.disks[i], PartSize(s.nv.parts[i]);
      NvFs.FoundValid(d, size, e.originFirst);
      BootFiles(d, size, e.originFirst, e.repair);
    }
  }

  lemma BootGood(s0: Sys, trace: seq<Event>, s: Sys, w: Witness, e: Event) returns (w': Witness)
    requires Good(s0, trace, s, w) && !s.Running() && e.BootRead?
    ensures Good(s0, trace + [e], BootStep(s, e.originFirst, e.repair), w')
    ensures Sound(s, e) ==> AllKept(s, w, BootStep(s, e.originFirst, e.repair), w')
    ensures forall i :: 0 <= i < |w.hs| ==> w'.hs[i] == BootHistory(s, e.originFirst, i, w.hs[i])
  {
    hide Explained, Unbroken, Keeps, Run, Sound, PacketOk, ProgressOk, NvFs.Read;
    var s' := BootStep(s, e.originFirst, e.repair);
    RunNext(s0, trace, e, s, s');
    var n := |w.hs|;
    w' := w.(hs := seq(n, i requires 0 <= i < n => BootHistory(s, e.originFirst, i, w.hs[i])));
    forall i | 0 <= i < n ensures Explained(s0, trace + [e], s', i, w'.hs[i]) {
      ExplainedGrows(s0, trace, e, s, i, w.hs[i]);
      BootOne(s0, trace, e, s, i, w.hs[i]);
    }
    if Sound(s, e) {
      forall i, t | 0 <= i < n && Keeps(t, s, i, w.hs[i]) ensures Keeps(t, s', i, w'.hs[i]) {
        BootKeepsOne(s, e, i, w.hs[i], t);
      }
    }
  }

  /** An event that means nothing during start-up. */
  lemma StutterGood(s0: Sys, trace: seq<Event>, s: Sys, w: Witness, e: Event)
    requires Good(s0, trace, s, w) && !s.Running() && !e.Crash? && !e.BootRead?
    ensures Good(s0, trace + [e], s, w) && AllKept(s, w, s, w)
  {
    hide Explained, Unbroken, Keeps, Run, SyncInv;
    RunNext(s0, trace, e, s, s);
    SyncInvGrows(trace, e, Ids(s0), s.nv, w.o, w.ps);
    forall i | 0 <= i < |w.hs| ensures Explained(s0, trace + [e], s, i, w.hs[i]) {
      ExplainedGrows(s0, trace, e, s, i, w.hs[i]);
    }
  }

  // ---- whole runs -----------------------------------------------------------------------

  /** One step of the machine, whatever it is. */
  lemma StepGood(s0: Sys, trace: seq<Event>, s: Sys, w: Witness, e: Event) returns (w': Witness)
    requires Good(s0, trace, s, w) && s.Valid() && Step(s, e).Some?
    ensures Good(s0, trace + [e], Step(s, e).value, w')
    ensures Sound(s, e) && Safe(s, e) ==> AllKept(s, w, Step(s, e).value, w')
  {
    hide Good, AllKept, SyncStep, SaveStep, CrashStep, BootStep, Sound, Safe;
    if e.Crash? {
      w' := CrashGood(s0, trace, s, w, e);
    } else if !s.Running() {
      if e.BootRead? {
        w' := BootGood(s0, trace, s, w, e);
      } else {
        StutterGood(s0, trace, s, w, e);
        w' := w;
      }
    } else if e.Recv? || e.ChannelFails? || e.Analyse? {
      w' := SyncGood(s0, trace, s, w, e);
    } else {
      w' := SaveGood(s0, trace, s, w, e);
    }
  }

  lemma KeptStays(s: Sys, w: Witness)
    requires s.Valid() && |w.hs| == |s.nv.parts|
    ensures AllKept(s, w, s, w)
  {
  }

  lemma KeptTransitive(s: Sys, w: Witness, s': Sys, w': Witness, s'': Sys, w'': Witness)
    requires s.Valid() && s'.Valid() && s''.Valid() && AllKept(s, w, s', w') && AllKept(s', w', s'', w'')
    ensures AllKept(s, w, s'', w'')
  {
    hide Keeps;
  }

  lemma GoodSize(s0: Sys, trace: seq<Event>, s: Sys, w: Witness)
    requires Good(s0, trace, s, w)
    ensures s0.Valid() && s.Valid() && Run(s0, trace) == Some(s) && |w.hs| == |s.nv.parts| == |s0.nv.parts|
  {
    hide Run, SyncInv, Unbroken, Explained;
  }

  /** From the explanation of the first `n` steps of a run to one of the whole run. */
  lemma {:induction false} RunGood(s: Sys, trace: seq<Event>, n: nat, w: Witness) returns (w': Witness)
    requires s.Valid() && Run(s, trace).Some? && n <= |trace|
    requires Run(s, trace[..n]).Some? ==> Good(s, trace[..n], Run(s, trace[..n]).value, w)
    ensures Run(s, trace[..n]).Some? && Good(s, trace, Run(s, trace).value, w')
    ensures AllSound(s, trace) && AllSafe(s, trace) ==> AllKept(Run(s, trace[..n]).value, w, Run(s, trace).value, w')
    decreases |trace|
  {
    hide *;
    if n == |trace| {
      assert trace[..n] == trace;
      w' := w;
      GoodSize(s, trace, Run(s, trace).value, w);
      KeptStays(Run(s, trace).value, w);
    } else {
      var before, e := trace[..|trace| - 1], trace[|trace| - 1];
      assert before[..n] == trace[..n] && before + [e] == trace;
      RunLast(s, trace);
      SoundPrefix(s, trace, |trace| - 1);
      SoundLast(s, trace);
      var mid := RunGood(s, before, n, w);
      w' := StepGood(s, before, Run(s, before).value, mid, e);
      if AllSound(s, trace) && AllSafe(s, trace) {
        KeptTransitive(Run(s, trace[..n]).value, w, Run(s, before).value, mid, Run(s, trace).value, w');
      }
    }
  }

  ghost function FileTale(f: NvFs.File, size: nat): Tale {
    Tale(if NvFs.CopyValid(f, size) then NvFs.Payload(f, size) else [], [])
  }

  /** What there is to say before anything has happened. */
  ghost function StartHistory(s: Sys, i: nat): History
    requires s.Valid() && i < |s.nv.parts|
  {
    var d, size := s.disks[i], PartSize(s.nv.parts[i]);
    History(Tale([], []), Tale([], []), FileTale(d.origin, size), FileTale(d.bak, size))
  }

  ghost function StartWitness(s: Sys): Witness
    requires s.Valid()
  {
    Witness(NOTHING, [], seq(|s.nv.parts|, i requires 0 <= i < |s.nv.parts| => StartHistory(s, i)))
  }

  lemma StartExplained(s: Sys, i: nat)
    requires Off(s) && i < |s.nv.parts|
    ensures Explained(s, [], s, i, StartHistory(s, i))
  {
    hide Tells, NvFs.CopyValid;
    var d, size := s.disks[i], PartSize(s.nv.parts[i]);
    if NvFs.CopyValid(d.origin, size) { TellsBase(s, [], i, NvFs.Payload(d.origin, size)); }
    if NvFs.CopyValid(d.bak, size) { TellsBase(s, [], i, NvFs.Payload(d.bak, size)); }
  }

  lemma OffGood(s: Sys)
    requires Off(s)
    ensures s.Valid() && Good(s, [], s, StartWitness(s))
  {
    hide Explained, StartHistory;
    RunNothing(s);
    forall i | 0 <= i < |s.nv.parts|
      ensures s.nv.parts[i].fromChannel.image == s.nv.parts[i].backup.image && Explained(s, [], s, i, StartHistory(s, i))
    {
      assert s.nv.parts[i] == Blank(s.nv.parts[i]);
      StartExplained(s, i);
    }
  }

  /** A run from its beginning. */
  lemma RunExplained(s: Sys, trace: seq<Event>) returns (w: Witness)
    requires Off(s) && Run(s, trace).Some?
    ensures s.Valid() && Good(s, trace, Run(s, trace).value, w)
    ensures AllSound(s, trace) && AllSafe(s, trace) ==> AllKept(s, StartWitness(s), Run(s, trace).value, w)
  {
    hide Off, Good, AllKept, AllSound, AllSafe, Run, StartWitness;
    OffGood(s);
    RunNothing(s);
    assert trace[..0] == [];
    w := RunGood(s, trace, 0, StartWitness(s));
  }

  // ---- request atomicity --------------------------------------------------------------------

  /** Every committed image is its base with a log of complete requests applied, each of them byte for byte
      the in-order sub-indices 0, 1, 2, ... of one group of received packets, and open without a break from
      the first of these packets until it was committed; and when the analyser is between requests
      the channel image of every partition is its committed image. So a request that failed, was
      overtaken by another group, or lost with the channel or in a crash, leaves no trace. */
  ghost predicate AtomicFrom(s0: Sys, bases: seq<seq<u8>>, trace: seq<Event>, s: Sys, logs: seq<seq<Commit>>)
    requires s0.Valid()
  {
    var parts := s.nv.parts;
    && |logs| == |parts| == |bases|
    && (forall i :: 0 <= i < |logs| ==> LogOk(s0, trace, i, logs[i]))
    && (forall i :: 0 <= i < |logs| ==> parts[i].backup.image == ApplyLog(bases[i], logs[i]))
    && (s.nv.sync.state == 0 ==> forall i :: 0 <= i < |logs| ==> parts[i].fromChannel.image == parts[i].backup.image)
  }

  lemma GoodMeans(s0: Sys, trace: seq<Event>, s: Sys, w: Witness) returns (bases: seq<seq<u8>>, logs: seq<seq<Commit>>)
    requires Good(s0, trace, s, w) && s.Running()
    ensures |logs| == |bases| == |w.hs| == |s.nv.parts| == |s0.nv.parts|
    ensures forall i :: 0 <= i < |logs| ==> logs[i] == w.hs[i].ram.log && bases[i] == w.hs[i].ram.base
    ensures AtomicFrom(s0, bases, trace, s, logs)
    ensures forall i :: 0 <= i < |bases| ==> BaseOk(s0, trace, i, bases[i])
  {
    hide LogOk, ApplyLog, PacketOk, ProgressOk, BaseOk, Unbroken, Run, NvFs.CopyValid;
    var n := |w.hs|;
    bases, logs := seq(n, i requires 0 <= i < n => w.hs[i].ram.base), seq(n, i requires 0 <= i < n => w.hs[i].ram.log);
    forall i | 0 <= i < n
      ensures s.nv.parts[i].backup.image == ApplyLog(bases[i], logs[i]) && LogOk(s0, trace, i, logs[i])
      ensures BaseOk(s0, trace, i, bases[i])
    {
      assert Explained(s0, trace, s, i, w.hs[i]);
    }
  }

  /** Request atomicity, in every run at all: with crashes, writes cut short, files that do not open, and reads
      in any order. The base of every committed image is an image that a valid copy held at power-on, or
      that a start read when no copy was valid. */
  lemma AtomicAcrossCrashes(s: Sys, trace: seq<Event>) returns (bases: seq<seq<u8>>, logs: seq<seq<Commit>>)
    requires Off(s) && Run(s, trace).Some? && Run(s, trace).value.Running()
    ensures s.Valid() && AtomicFrom(s, bases, trace, Run(s, trace).value, logs)
    ensures |bases| == |s.nv.parts| && forall i :: 0 <= i < |bases| ==> BaseOk(s, trace, i, bases[i])
  {
    hide Off, Good, AtomicFrom, Run, BaseOk, AllKept, AllSound, AllSafe;
    var w := RunExplained(s, trace);
    bases, logs := GoodMeans(s, trace, Run(s, trace).value, w);
  }

  /** The image of every partition on the disk at power-on. */
  ghost function Bases(s: Sys): (r: seq<seq<u8>>)
    requires PowerOn(s)
    ensures |r| == |s.nv.parts|
  {
    seq(|s.nv.parts|, i requires 0 <= i < |s.nv.parts| => NvFs.Stored(s.disks[i], PartSize(s.nv.parts[i])))
  }

  lemma StartKeeps(s: Sys, i: nat)
    requires PowerOn(s) && i < |s.nv.parts|
    ensures Keeps(Tale(Bases(s)[i], []), s, i, StartHistory(s, i))
  {
    hide NvFs.CopyValid;
  }

  /** In every sound and safe run from valid copies the bases are the images stored at power-on. */
  lemma AtomicFromStored(s: Sys, trace: seq<Event>) returns (logs: seq<seq<Commit>>)
    requires PowerOn(s) && Run(s, trace).Some? && Run(s, trace).value.Running() && AllSound(s, trace) && AllSafe(s, trace)
    ensures AtomicFrom(s, Bases(s), trace, Run(s, trace).value, logs)
  {
    hide Off, Good, AtomicFrom, Run, BaseOk, AllSound, AllSafe, Bases, Keeps, StartHistory, NvFs.HasValid;
    var w := RunExplained(s, trace);
    var end := Run(s, trace).value;
    var bases;
    bases, logs := GoodMeans(s, trace, end, w);
    forall i | 0 <= i < |s.nv.parts| ensures bases[i] == Bases(s)[i] {
      StartKeeps(s, i);
      assert Keeps(Tale(Bases(s)[i], []), end, i, w.hs[i]);
      KeepsRam(Tale(Bases(s)[i], []), end, i, w.hs[i]);
    }
    assert bases == Bases(s);
  }

  lemma KeepsRam(t: Tale, s: Sys, i: nat, h: History)
    requires s.Valid() && s.Running() && i < |s.nv.parts| && Keeps(t, s, i, h)
    ensures h.ram.base == t.base && t.log <= h.ram.log
  {
    hide NvFs.CopyValid;
  }

  // ---- without crashes: any files, any order, any failure --------------------------------------

  /** The orders in which the start-up reads of a run try the files. */
  function Orders(trace: seq<Event>): seq<bool> {
    if trace == [] then []
    else
      var last := trace[|trace| - 1];
      Orders(trace[..|trace| - 1]) + if last.BootRead? then [last.originFirst] else []
  }

  /** The images that a start finds, each read in the order drawn for it. */
  function ImagesRead(s: Sys, orders: seq<bool>): (r: seq<seq<u8>>)
    requires s.Valid()
    ensures |r| == |s.nv.parts|
  {
    var n := |s.nv.parts|;
    seq(n, i requires 0 <= i < n =>
      NvFs.Found(s.disks[i], PartSize(s.nv.parts[i]), if i < |orders| then orders[i] else true))
  }

  lemma SameImage(s: Sys, orders: seq<bool>, more: seq<bool>, i: nat)
    requires s.Valid() && i < |s.nv.parts| && i < |orders|
    ensures ImagesRead(s, orders + more)[i] == ImagesRead(s, orders)[i]
  {
    hide NvFs.Found;
  }

  /** As long as there has been no crash: what has been read is the base, and nothing has happened to the
      rest. */
  ghost predicate Fresh(s0: Sys, orders: seq<bool>, s: Sys, w: Witness)
    requires s0.Valid() && s.Valid() && |w.hs| == |s.nv.parts| == |s0.nv.parts|
  {
    && (if s.Running() then |orders| >= |s0.nv.parts| else |orders| == s.boot)
    && (forall i :: 0 <= i < s.boot ==> w.hs[i].ram.base == ImagesRead(s0, orders)[i])
    && (forall i :: s.boot <= i < |w.hs| ==>
          s.disks[i] == s0.disks[i] && s.nv.parts[i] == s0.nv.parts[i] && w.hs[i] == StartHistory(s0, i))
  }

  lemma OrdersNext(trace: seq<Event>, e: Event)
    ensures Orders(trace + [e]) == Orders(trace) + if e.BootRead? then [e.originFirst] else []
  {
    assert (trace + [e])[..|trace|] == trace;
  }

  /** The first read of a partition. */
  lemma StartReadTale(s: Sys, i: nat, order: bool)
    requires s.Valid() && i < |s.nv.parts|
    ensures ReadTale(s, i, order, StartHistory(s, i)).base == NvFs.Found(s.disks[i], PartSize(s.nv.parts[i]), order)
  {
    hide NvFs.CopyValid, NvFs.Found, NvFs.Repair;
    if NvFs.HasValid(s.disks[i], PartSize(s.nv.parts[i])) {
      NvFs.FoundValid(s.disks[i], PartSize(s.nv.parts[i]), order);
    }
  }

  lemma BootFresh(s0: Sys, orders: seq<bool>, s: Sys, w: Witness, e: Event, w': Witness)
    requires s0.Valid() && s.Valid() && |w.hs| == |s.nv.parts| == |s0.nv.parts| == |w'.hs| && Fresh(s0, orders, s, w)
    requires !s.Running() && e.BootRead?
    requires forall i :: 0 <= i < |w.hs| ==> w'.hs[i] == BootHistory(s, e.originFirst, i, w.hs[i])
    ensures Fresh(s0, orders + [e.originFirst], BootStep(s, e.originFirst, e.repair), w')
  {
    hide NvFs.Found, NvFs.Repair, NvFs.Rewrite, ReadTale, StartHistory, RepairHistory, ImagesRead;
    var i := s.boot;
    var orders' := orders + [e.originFirst];
    assert orders'[i] == e.originFirst;
    StartReadTale(s0, i, e.originFirst);
    SameRead(s0, s, i, e.originFirst, w.hs[i]);
    ImageAt(s0, orders', i);
    forall j | 0 <= j < i ensures ImagesRead(s0, orders')[j] == ImagesRead(s0, orders)[j] {
      SameImage(s0, orders, [e.originFirst], j);
    }
  }

  lemma ImageAt(s: Sys, orders: seq<bool>, i: nat)
    requires s.Valid() && i < |s.nv.parts| && i < |orders|
    ensures ImagesRead(s, orders)[i] == NvFs.Found(s.disks[i], PartSize(s.nv.parts[i]), orders[i])
  {
    hide NvFs.Found;
  }

  lemma SameRead(s0: Sys, s: Sys, i: nat, order: bool, h: History)
    requires s0.Valid() && s.Valid() && i < |s.nv.parts| == |s0.nv.parts|
    requires s.disks[i] == s0.disks[i] && s.nv.parts[i] == s0.nv.parts[i]
    ensures ReadTale(s, i, order, h) == ReadTale(s0, i, order, h)
  {
  }

  lemma RunningFresh(s0: Sys, orders: seq<bool>, s: Sys, w: Witness, s': Sys, w': Witness, more: seq<bool>)
    requires s0.Valid() && s.Valid() && |w.hs| == |s.nv.parts| == |s0.nv.parts| && Fresh(s0, orders, s, w)
    requires s.Running() && s'.Valid() && s'.Running() && |s'.nv.parts| == |s.nv.parts| && SameBases(w, w')
    ensures Fresh(s0, orders + more, s', w')
  {
    hide ImagesRead;
    forall i | 0 <= i < |w.hs| ensures ImagesRead(s0, orders + more)[i] == ImagesRead(s0, orders)[i] {
      SameImage(s0, orders, more, i);
    }
  }

  lemma FreshStep(s0: Sys, trace: seq<Event>, s: Sys, w: Witness, e: Event) returns (w': Witness)
    requires Good(s0, trace, s, w) && s.Valid() && |w.hs| == |s.nv.parts| == |s0.nv.parts|
    requires Fresh(s0, Orders(trace), s, w) && !e.Crash? && Step(s, e).Some?
    ensures Good(s0, trace + [e], Step(s, e).value, w')
    ensures |w'.hs| == |s0.nv.parts| && Fresh(s0, Orders(trace + [e]), Step(s, e).value, w')
  {
    hide Good, Fresh, AllKept, SyncStep, SaveStep, BootStep, SameBases, BootHistory, Orders;
    GoodSize(s0, trace, s, w);
    OrdersNext(trace, e);
    var more := if e.BootRead? then [e.originFirst] else [];
    if s.Running() {
      if e.Recv? || e.ChannelFails? || e.Analyse? {
        w' := SyncGood(s0, trace, s, w, e);
      } else {
        w' := SaveGood(s0, trace, s, w, e);
      }
      RunningFresh(s0, Orders(trace), s, w, Step(s, e).value, w', more);
      GoodSize(s0, trace + [e], Step(s, e).value, w');
    } else if e.BootRead? {
      w' := BootGood(s0, trace, s, w, e);
      GoodSize(s0, trace + [e], Step(s, e).value, w');
      BootFresh(s0, Orders(trace), s, w, e, w');
    } else {
      StutterGood(s0, trace, s, w, e);
      w' := w;
      assert Orders(trace) + more == Orders(trace);
    }
  }

  lemma OffFresh(s: Sys)
    requires Off(s)
    ensures s.Valid() && Fresh(s, Orders([]), s, StartWitness(s))
  {
    hide StartHistory, ImagesRead;
  }

  lemma {:induction false} RunFresh(s: Sys, trace: seq<Event>) returns (w: Witness)
    requires Off(s) && NoCrash(trace) && Run(s, trace).Some?
    ensures s.Valid() && Good(s, trace, Run(s, trace).value, w)
    ensures |w.hs| == |Run(s, trace).value.nv.parts| == |s.nv.parts| && Fresh(s, Orders(trace), Run(s, trace).value, w)
    decreases |trace|
  {
    hide Off, Good, Fresh, Run, Step;
    OffGood(s);
    if trace == [] {
      w := StartWitness(s);
      RunNothing(s);
      OffFresh(s);
    } else {
      var before, e := trace[..|trace| - 1], trace[|trace| - 1];
      assert forall k :: 0 <= k < |before| ==> before[k] == trace[k];
      RunLast(s, trace);
      w := RunFresh(s, before);
      w := FreshStep(s, before, Run(s, before).value, w, e);
      assert before + [e] == trace;
      GoodSize(s, trace, Run(s, trace).value, w);
    }
  }

  /** Request atomicity without a crash. Whatever the files hold, in whichever order they are read, and whatever
      fails to open or to be written, the bases are the images that the start read. */
  lemma RequestAtomicity(s: Sys, trace: seq<Event>) returns (logs: seq<seq<Commit>>)
    requires Off(s) && NoCrash(trace) && Run(s, trace).Some? && Run(s, trace).value.Running()
    ensures s.Valid() && AtomicFrom(s, ImagesRead(s, Orders(trace)), trace, Run(s, trace).value, logs)
  {
    hide Off, Good, AtomicFrom, Run, BaseOk, ImagesRead, NoCrash, StartHistory;
    var w := RunFresh(s, trace);
    var bases;
    bases, logs := GoodMeans(s, trace, Run(s, trace).value, w);
    assert bases == ImagesRead(s, Orders(trace));
  }

  // ---- what is on the disk survives --------------------------------------------------------------

  /** A partition without marks: its committed image is on the disk, and the stored copy has its tale. */
  lemma CleanIsSaved(s0: Sys, trace: seq<Event>, s: Sys, w: Witness, i: nat) returns (w': Witness)
    requires Good(s0, trace, s, w) && s.Running() && AllPartsOk(s) && i < |w.hs| == |s.nv.parts| == |s0.nv.parts|
    requires s.nv.parts[i].backup.dirty == {} && s.nv.parts[i].toDisk.dirty == {}
    ensures Good(s0, trace, s, w') && |w'.hs| == |w.hs| && w'.hs[i].ram == w.hs[i].ram
    ensures Keeps(w.hs[i].ram, s, i, w'.hs[i])
  {
    hide Tells, SyncInv, NvFs.CopyValid, Unbroken, Run;
    var h, p, d := w.hs[i], s.nv.parts[i], s.disks[i];
    assert PartOk(s, i) && Explained(s0, trace, s, i, h);
    assert p.backup.image == p.toDisk.image;
    var h' := if NvFs.CopyValid(d.origin, PartSize(p)) then h.(origin := h.ram) else h.(bak := h.ram);
    w' := w.(hs := w.hs[i := h']);
    forall j | 0 <= j < |w'.hs| ensures Explained(s0, trace, s, j, w'.hs[j]) {
      assert Explained(s0, trace, s, j, w.hs[j]);
    }
  }

  lemma AtomicPart(s0: Sys, bases: seq<seq<u8>>, trace: seq<Event>, s: Sys, logs: seq<seq<Commit>>, i: nat)
    requires s0.Valid() && AtomicFrom(s0, bases, trace, s, logs) && i < |logs|
    ensures |logs| == |s.nv.parts| == |bases|
    ensures LogOk(s0, trace, i, logs[i]) && s.nv.parts[i].backup.image == ApplyLog(bases[i], logs[i])
  {
  }

  /** Crash safety end to end. If partition `i` has no marks after the first `n` steps of a sound and safe run,
      then after the whole run, whatever crashes and whatever writes cut short it contains, the committed
      image of `i` is the same base with a log applied that begins with every request committed in
      those `n` steps. */
  lemma SavedRequestsSurvive(s: Sys, trace: seq<Event>, n: nat, i: nat)
    returns (base: seq<u8>, log: seq<Commit>, log': seq<Commit>)
    requires Off(s) && AllSound(s, trace) && AllSafe(s, trace) && Run(s, trace).Some? && Run(s, trace).value.Running()
    requires n <= |trace| && i < |s.nv.parts| && Run(s, trace[..n]).Some? && Run(s, trace[..n]).value.Running()
    requires var p := Run(s, trace[..n]).value.nv.parts[i]; p.backup.dirty == {} && p.toDisk.dirty == {}
    ensures BaseOk(s, trace[..n], i, base)
    ensures LogOk(s, trace[..n], i, log) && LogOk(s, trace, i, log') && log <= log'
    ensures Run(s, trace[..n]).value.nv.parts[i].backup.image == ApplyLog(base, log)
    ensures Run(s, trace).value.nv.parts[i].backup.image == ApplyLog(base, log')
  {
    hide LogOk, Off, Good, AllPartsOk, AllSound, AllSafe, Run, AtomicFrom, ApplyLog, BaseOk, Keeps;
    OffOk(s);
    SoundPrefix(s, trace, n);
    var w := RunExplained(s, trace[..n]);
    RunKeeps(s, trace[..n]);
    var mid, end := Run(s, trace[..n]).value, Run(s, trace).value;
    GoodSize(s, trace[..n], mid, w);
    w := CleanIsSaved(s, trace[..n], mid, w, i);
    var w' := RunGood(s, trace, n, w);
    GoodSize(s, trace, end, w');
    var bases, logs := GoodMeans(s, trace[..n], mid, w);
    var bases', logs' := GoodMeans(s, trace, end, w');
    AtomicPart(s, bases, trace[..n], mid, logs, i);
    AtomicPart(s, bases', trace, end, logs', i);
    KeepsRam(w.hs[i].ram, end, i, w'.hs[i]);
    base, log, log' := bases[i], logs[i], logs'[i];
  }
}
