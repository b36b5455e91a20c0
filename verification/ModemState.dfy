/** The modem-state protocol of modemd: two watcher threads for each modem, over shared states that
    mutexes and condition variables guard. */
module ModemState {
  import opened Words

  datatype Modem = TD | W

  datatype State = READY | ASSERT | RESET

  /** `detect_modem_blocked` and `detect_sipc_modem` of a modem. */
  datatype Thread = Blocked(modem: Modem) | Sipc(modem: Modem)

  /** What a thread does once it has left a critical section. */
  datatype Then = Read | Decide | Load

  /** Where a thread stands in a critical section; each constructor is the next thing it does. A
      watcher that has waited remembers the length of the log when it began. */
  datatype Section =
    | CheckWait | GoWait | LeaveWait(since: Option<nat>)     // the read failed
    | CheckBlocked | Accept                                  // a "Modem Blocked" report
    | Assign(v: State)                                       // "Modem Reset", "Modem Assert", "wdtirq"
    | SetReady | Signal                                      // the end of a reload
    | Leave(next: Then)

  datatype Pc =
    | Out(next: Then)                 // outside
    | Want(m: Modem, at: Section)     // in pthread_mutex_lock
    | In(m: Modem, at: Section)       // the owner of the mutex
    | Waiting(since: nat)             // in pthread_cond_wait

  /** What happens to the state of a modem: a block is accepted, an assert or a reset is noted, a reload
      is finished. */
  datatype Report = Accepted(m: Modem) | Fell(m: Modem) | Reloaded(m: Modem)

  datatype Sys = Sys(state: Modem -> State, owner: Modem -> Option<Thread>, pc: Thread -> Pc, log: seq<Report>)

  function Put<K(==), V>(f: K -> V, k: K, v: V): K -> V {
    x => if x == k then v else f(x)
  }

  /** What the environment decides in a step. */
  datatype Choice =
    | ReadFails | ReadBlocked(m: Modem) | ReadReset | ReadAssert   // what a read brings
    | Enabled | Disabled                                           // the reset property
    | Loaded | LoadFails
    | Spurious                                                     // a wakeup without a signal
    | Go                                                           // the thread's own next step

  const BOOT: Sys := Sys(_ => READY, _ => None, _ => Out(Read), [])

  function Goto(s: Sys, t: Thread, pc: Pc): Sys {
    s.(pc := Put(s.pc, t, pc))
  }

  function Unlock(s: Sys, t: Thread, m: Modem, pc: Pc): Sys {
    Goto(s.(owner := Put(s.owner, m, None)), t, pc)
  }

  /** Outside of the critical sections. */
  function OutStep(s: Sys, t: Thread, next: Then, c: Choice): Option<Sys> {
    match (next, c)
    case (Read, ReadFails) => if t.Blocked? then Some(Goto(s, t, Want(t.modem, CheckWait))) else None
    case (Read, ReadBlocked(m)) => if t.Blocked? then Some(Goto(s, t, Want(m, CheckBlocked))) else None
    case (Read, ReadReset) => if t.Sipc? then Some(Goto(s, t, Want(t.modem, Assign(RESET)))) else None
    case (Read, ReadAssert) => if t.Sipc? then Some(Goto(s, t, Want(t.modem, Assign(ASSERT)))) else None
    case (Decide, Enabled) => Some(Goto(s, t, Out(Load)))
    case (Decide, Disabled) => Some(Goto(s, t, Out(Read)))
    case (Load, Loaded) => Some(Goto(s, t, Want(t.modem, SetReady)))
    case (Load, LoadFails) => Some(Goto(s, t, Out(Read)))
    case _ => None
  }

  /** `pthread_cond_signal` wakes the watcher that waits for the modem, which then wants the mutex. */
  function Wake(s: Sys, m: Modem): Sys {
    match s.pc(Blocked(m))
    case Waiting(since) => Goto(s, Blocked(m), Want(m, LeaveWait(Some(since))))
    case _ => s
  }

  /** In the critical section of modem `m`. */
  function InStep(s: Sys, t: Thread, m: Modem, at: Section): Sys {
    match at
    case CheckWait => Goto(s, t, In(m, if s.state(m) != READY then GoWait else LeaveWait(None)))
    case GoWait => Unlock(s, t, m, Waiting(|s.log|))
    case LeaveWait(_) => Unlock(s, t, m, Out(Read))
    case CheckBlocked => Goto(s, t, In(m, if s.state(m) != READY then Leave(Read) else Accept))
    case Accept =>
      Goto(s.(state := Put(s.state, m, ASSERT), log := s.log + [Accepted(m)]), t, In(m, Leave(Decide)))
    case Assign(v) =>
      Goto(s.(state := Put(s.state, m, v), log := s.log + [Fell(m)]), t, In(m, Leave(if v == RESET then Load else Decide)))
    case SetReady => Goto(s.(state := Put(s.state, m, READY), log := s.log + [Reloaded(m)]), t, In(m, Signal))
    case Signal => Goto(Wake(s, m), t, In(m, Leave(Read)))
    case Leave(next) => Unlock(s, t, m, Out(next))
  }

  /** One step of thread `t`; `None` when it cannot be made. */
  function Next(s: Sys, t: Thread, c: Choice): Option<Sys> {
    match s.pc(t)
    case Out(next) => OutStep(s, t, next, c)
    case Want(m, at) =>
      if c == Go && s.owner(m).None? then Some(Goto(s.(owner := Put(s.owner, m, Some(t))), t, In(m, at))) else None
    case In(m, at) => if c == Go then Some(InStep(s, t, m, at)) else None
    case Waiting(since) =>
      if c == Spurious then Some(Goto(s, t, Want(t.modem, LeaveWait(Some(since))))) else None
  }

  datatype Step = Step(t: Thread, c: Choice)

  /** The system after the steps, in the order in which they are made. */
  function Run(steps: seq<Step>): Option<Sys> {
    if steps == [] then Some(BOOT)
    else
      var s := Run(steps[..|steps| - 1]);
      var last := steps[|steps| - 1];
      if s.None? then None else Next(s.value, last.t, last.c)
  }

  // ---- the invariant -------------------------------------------------------------------------

  /** The mutex belongs to the thread that is inside. */
  ghost predicate Exclusive(s: Sys) {
    forall m, t :: s.owner(m) == Some(t) <==> s.pc(t).In? && s.pc(t).m == m
  }

  /** According to the log, modem `m` is ready: the last report about it is a reload, or there is none. */
  predicate ReadyBy(log: seq<Report>, m: Modem) {
    log == [] || if log[|log| - 1].m == m then log[|log| - 1].Reloaded? else ReadyBy(log[..|log| - 1], m)
  }

  /** It was not, when the log had `n` entries. */
  predicate UnreadyAt(log: seq<Report>, m: Modem, n: nat) {
    n <= |log| && !ReadyBy(log[..n], m)
  }

  /** Which sections a thread can be in, and what it knows about the state there. */
  predicate SectionOk(s: Sys, t: Thread, m: Modem, at: Section) {
    match at
    case CheckWait => t == Blocked(m)
    case GoWait => t == Blocked(m) && s.state(m) != READY
    case LeaveWait(since) => t == Blocked(m) && (since.Some? ==> UnreadyAt(s.log, m, since.value))
    case CheckBlocked => true
    case Accept => s.state(m) == READY
    case Assign(v) => v != READY
    case SetReady => t.modem == m
    case Signal => s.state(m) == READY
    case Leave(_) => true
  }

  predicate Entry(at: Section) {
    at.CheckWait? || at.LeaveWait? || at.CheckBlocked? || at.Assign? || at.SetReady?
  }

  predicate PcOk(s: Sys, t: Thread) {
    match s.pc(t)
    case Out(_) => true
    case Want(m, at) => Entry(at) && SectionOk(s, t, m, at)
    case In(m, at) => SectionOk(s, t, m, at)
    case Waiting(since) => t.Blocked? && UnreadyAt(s.log, t.modem, since)
  }

  /** The owner of the mutex is about to signal. */
  predicate Signalling(s: Sys, m: Modem) {
    s.owner(m).Some? && s.pc(s.owner(m).value) == In(m, Signal)
  }

  /** A watcher waits only while the modem is not ready; the signal is at most one step away. */
  predicate WaitOk(s: Sys, m: Modem) {
    s.pc(Blocked(m)).Waiting? && s.state(m) == READY ==> Signalling(s, m)
  }

  ghost predicate Inv(s: Sys) {
    && Exclusive(s)
    && (forall t :: PcOk(s, t))
    && (forall m :: WaitOk(s, m))
    && (forall m :: s.state(m) == READY <==> ReadyBy(s.log, m))
  }

  lemma ReadyAppend(log: seq<Report>, r: Report, m: Modem)
    ensures ReadyBy(log + [r], m) <==> if r.m == m then r.Reloaded? else ReadyBy(log, m)
  {
    assert (log + [r])[..|log|] == log;
  }

  lemma UnreadyGrows(log: seq<Report>, more: seq<Report>, m: Modem, n: nat)
    requires UnreadyAt(log, m, n)
    ensures UnreadyAt(log + more, m, n)
  {
    assert (log + more)[..n] == log[..n];
  }

  /** Exclusion survives a step of one thread that changes its own place, and the owner with it. */
  lemma GotoExclusive(s: Sys, t: Thread, pc: Pc)
    requires Exclusive(s)
    requires if s.pc(t).In? then pc.In? && pc.m == s.pc(t).m else !pc.In?
    ensures Exclusive(Goto(s, t, pc))
  {
    var s' := Goto(s, t, pc);
    forall m, x ensures s'.owner(m) == Some(x) <==> s'.pc(x).In? && s'.pc(x).m == m {
      assert s.owner(m) == Some(x) <==> s.pc(x).In? && s.pc(x).m == m;
    }
  }

  lemma UnlockExclusive(s: Sys, t: Thread, m: Modem, pc: Pc)
    requires Exclusive(s) && s.pc(t).In? && s.pc(t).m == m && !pc.In?
    ensures Exclusive(Unlock(s, t, m, pc))
  {
    var s' := Unlock(s, t, m, pc);
    forall n, x ensures s'.owner(n) == Some(x) <==> s'.pc(x).In? && s'.pc(x).m == n {
      assert s.owner(n) == Some(x) <==> s.pc(x).In? && s.pc(x).m == n;
      assert s.owner(m) == Some(t);
    }
  }

  lemma LockExclusive(s: Sys, t: Thread, m: Modem, at: Section)
    requires Exclusive(s) && s.pc(t) == Want(m, at) && s.owner(m).None?
    ensures Exclusive(Goto(s.(owner := Put(s.owner, m, Some(t))), t, In(m, at)))
  {
    var s' := Goto(s.(owner := Put(s.owner, m, Some(t))), t, In(m, at));
    forall n, x ensures s'.owner(n) == Some(x) <==> s'.pc(x).In? && s'.pc(x).m == n {
      assert s.owner(n) == Some(x) <==> s.pc(x).In? && s.pc(x).m == n;
    }
  }

  /** A step that changes no state, log or owner but the thread's own place. */
  lemma GotoInv(s: Sys, t: Thread, pc: Pc)
    requires Inv(s) && PcOk(Goto(s, t, pc), t) && !pc.Waiting?
    requires if s.pc(t).In? then pc.In? && pc.m == s.pc(t).m else !pc.In?
    requires s.pc(t).In? && s.pc(t).at.Signal? ==> !s.pc(Blocked(s.pc(t).m)).Waiting?
    ensures Inv(Goto(s, t, pc))
  {
    var s' := Goto(s, t, pc);
    GotoExclusive(s, t, pc);
    forall x ensures PcOk(s', x) {
      assert PcOk(s, x);
    }
    forall m ensures WaitOk(s', m) {
      assert WaitOk(s, m);
    }
  }

  lemma UnlockInv(s: Sys, t: Thread, m: Modem, pc: Pc)
    requires Inv(s) && s.pc(t).In? && s.pc(t).m == m && !s.pc(t).at.Signal?
    requires pc.Out? || (pc.Waiting? && t == Blocked(m) && s.state(m) != READY && pc.since == |s.log|)
    ensures Inv(Unlock(s, t, m, pc))
  {
    var s' := Unlock(s, t, m, pc);
    UnlockExclusive(s, t, m, pc);
    assert s.owner(m) == Some(t);
    assert s.log[..|s.log|] == s.log;
    forall x ensures PcOk(s', x) {
      assert PcOk(s, x);
    }
    forall n ensures WaitOk(s', n) {
      assert WaitOk(s, n);
    }
  }

  lemma LockInv(s: Sys, t: Thread, m: Modem, at: Section)
    requires Inv(s) && s.pc(t) == Want(m, at) && s.owner(m).None?
    ensures Inv(Goto(s.(owner := Put(s.owner, m, Some(t))), t, In(m, at)))
  {
    var s' := Goto(s.(owner := Put(s.owner, m, Some(t))), t, In(m, at));
    LockExclusive(s, t, m, at);
    forall x ensures PcOk(s', x) {
      assert PcOk(s, x) && PcOk(s, t);
    }
    forall n ensures WaitOk(s', n) {
      assert WaitOk(s, n);
    }
  }

  /** The owner assigns the state, and reports it. */
  lemma AssignInv(s: Sys, t: Thread, m: Modem, v: State, r: Report, at: Section)
    requires Inv(s) && s.pc(t).In? && s.pc(t).m == m && r.m == m
    requires if v == READY then r.Reloaded? && at == Signal else !r.Reloaded? && at.Leave?
    ensures Inv(Goto(s.(state := Put(s.state, m, v), log := s.log + [r]), t, In(m, at)))
  {
    hide ReadyBy, UnreadyAt;
    var s1 := s.(state := Put(s.state, m, v), log := s.log + [r]);
    var s' := Goto(s1, t, In(m, at));
    GotoExclusive(s1, t, In(m, at));
    assert s.owner(m) == Some(t);
    forall x ensures PcOk(s', x) {
      assert PcOk(s, x);
      var since := Since(s.pc(x));
      if since.Some? { UnreadyGrows(s.log, [r], x.modem, since.value); }
    }
    forall n ensures WaitOk(s', n) {
      assert WaitOk(s, n);
    }
    forall n ensures s'.state(n) == READY <==> ReadyBy(s'.log, n) {
      ReadyAppend(s.log, r, n);
    }
  }

  /** When the thread began to wait, if it is waiting or on its way out. */
  function Since(pc: Pc): Option<nat> {
    if pc.Waiting? then Some(pc.since) else WaitedSince(pc)
  }

  lemma InStepInv(s: Sys, t: Thread, m: Modem, at: Section)
    requires Inv(s) && s.pc(t) == In(m, at)
    ensures Inv(InStep(s, t, m, at))
  {
    assert PcOk(s, t);
    hide Inv;
    match at
    case CheckWait => GotoInv(s, t, In(m, if s.state(m) != READY then GoWait else LeaveWait(None)));
    case GoWait => UnlockInv(s, t, m, Waiting(|s.log|));
    case LeaveWait(_) => UnlockInv(s, t, m, Out(Read));
    case CheckBlocked => GotoInv(s, t, In(m, if s.state(m) != READY then Leave(Read) else Accept));
    case Accept => AssignInv(s, t, m, ASSERT, Accepted(m), Leave(Decide));
    case Assign(v) => AssignInv(s, t, m, v, Fell(m), Leave(if v == RESET then Load else Decide));
    case SetReady => AssignInv(s, t, m, READY, Reloaded(m), Signal);
    case Signal => WakeInv(s, t, m); GotoInv(Wake(s, m), t, In(m, Leave(Read)));
    case Leave(next) => UnlockInv(s, t, m, Out(next));
  }

  lemma WakeInv(s: Sys, t: Thread, m: Modem)
    requires Inv(s) && s.pc(t) == In(m, Signal)
    ensures var s' := Wake(s, m); Inv(s') && s'.pc(t) == In(m, Signal) && !s'.pc(Blocked(m)).Waiting?
  {
    assert PcOk(s, Blocked(m));
    if s.pc(Blocked(m)).Waiting? {
      GotoInv(s, Blocked(m), Want(m, LeaveWait(Some(s.pc(Blocked(m)).since))));
    }
  }

  lemma StepInv(s: Sys, t: Thread, c: Choice)
    requires Inv(s) && Next(s, t, c).Some?
    ensures Inv(Next(s, t, c).value)
  {
    assert PcOk(s, t);
    hide Inv, InStep;
    match s.pc(t)
    case Out(next) => GotoInv(s, t, OutStep(s, t, next, c).value.pc(t));
    case Want(m, at) => LockInv(s, t, m, at);
    case In(m, at) => InStepInv(s, t, m, at);
    case Waiting(since) => GotoInv(s, t, Want(t.modem, LeaveWait(Some(since))));
  }

  lemma {:induction false} RunInv(steps: seq<Step>)
    requires Run(steps).Some?
    ensures Inv(Run(steps).value)
    decreases |steps|
  {
    if steps != [] {
      var last := steps[|steps| - 1];
      RunInv(steps[..|steps| - 1]);
      StepInv(Run(steps[..|steps| - 1]).value, last.t, last.c);
    }
  }

  // ---- what it gives ---------------------------------------------------------------------------

  /** At most one thread is ever inside the critical sections of a modem. */
  lemma MutualExclusion(steps: seq<Step>, t: Thread, u: Thread)
    requires Run(steps).Some?
    requires var pc := Run(steps).value.pc; pc(t).In? && pc(u).In? && pc(t).m == pc(u).m
    ensures t == u
  {
    RunInv(steps);
    var s := Run(steps).value;
    assert s.owner(s.pc(t).m) == Some(t) && s.owner(s.pc(u).m) == Some(u);
  }

  /** No wakeup is lost: whenever nobody is about to signal - in particular whenever the mutex is free -
      a watcher that waits for a modem waits for one that is not ready. */
  lemma WaitsWhileNotReady(steps: seq<Step>, m: Modem)
    requires Run(steps).Some?
    ensures var s := Run(steps).value; s.pc(Blocked(m)).Waiting? && !Signalling(s, m) ==> s.state(m) != READY
  {
    RunInv(steps);
    assert WaitOk(Run(steps).value, m);
  }

  /** Between two accepted blocks of a modem lies a finished reload of it. */
  ghost predicate Alternates(log: seq<Report>, m: Modem) {
    forall i, j :: 0 <= i < j < |log| && log[i] == log[j] == Accepted(m) ==>
      exists k :: i < k < j && log[k] == Reloaded(m)
  }

  /** A modem that is ready after something happened to it has been reloaded since, and nothing has
      happened to it after that. */
  lemma {:induction false} ReloadedLast(log: seq<Report>, m: Modem, i: nat) returns (k: nat)
    requires ReadyBy(log, m) && i <= |log| && !ReadyBy(log[..i], m)
    ensures i <= k < |log| && log[k] == Reloaded(m) && Quiet(log, m, k)
    decreases |log|
  {
    assert log[..|log|] == log;
    var last := log[|log| - 1];
    if last.m == m {
      k := |log| - 1;
    } else {
      var front := log[..|log| - 1];
      assert front[..i] == log[..i];
      k := ReloadedLast(front, m, i);
    }
  }

  /** No assert, reset or accepted block of `m` comes behind entry `k`. */
  predicate Quiet(log: seq<Report>, m: Modem, k: nat) {
    forall j :: k < j < |log| && log[j].m == m ==> log[j].Reloaded?
  }

  lemma {:induction false} QuietReady(log: seq<Report>, m: Modem, k: nat)
    requires k < |log| && log[k] == Reloaded(m) && Quiet(log, m, k)
    ensures ReadyBy(log, m)
    decreases |log|
  {
    if k < |log| - 1 && log[|log| - 1].m != m {
      QuietReady(log[..|log| - 1], m, k);
    }
  }

  lemma AcceptedUnready(log: seq<Report>, m: Modem, i: nat)
    requires i < |log| && log[i] == Accepted(m)
    ensures !ReadyBy(log[..i + 1], m)
  {
  }

  lemma AlternatesAppend(log: seq<Report>, r: Report, m: Modem)
    requires Alternates(log, m) && (r == Accepted(m) ==> ReadyBy(log, m))
    ensures Alternates(log + [r], m)
  {
    hide ReadyBy, Quiet;
    var log' := log + [r];
    forall i, j | 0 <= i < j < |log'| && log'[i] == log'[j] == Accepted(m)
      ensures exists k :: i < k < j && log'[k] == Reloaded(m)
    {
      if j < |log| {
        assert log[i] == log[j] == Accepted(m);
        var k :| i < k < j && log[k] == Reloaded(m);
        assert log'[k] == Reloaded(m);
      } else {
        AcceptedUnready(log, m, i);
        var k := ReloadedLast(log, m, i + 1);
        assert log'[k] == Reloaded(m);
      }
    }
  }

  /** How a step changes the log. */
  lemma StepLog(s: Sys, t: Thread, c: Choice)
    requires Inv(s) && Next(s, t, c).Some?
    ensures var log' := Next(s, t, c).value.log;
            || log' == s.log
            || (exists r :: log' == s.log + [r] && (r.Accepted? ==> ReadyBy(s.log, r.m)))
  {
    assert PcOk(s, t);
    if s.pc(t).In? {
      var m := s.pc(t).m;
      if s.pc(t).at.Accept? {
        assert ReadyBy(s.log, m);
        assert Next(s, t, c).value.log == s.log + [Accepted(m)];
      } else if s.pc(t).at.SetReady? {
        assert Next(s, t, c).value.log == s.log + [Reloaded(m)];
      } else if s.pc(t).at.Assign? {
        assert Next(s, t, c).value.log == s.log + [Fell(m)];
      }
    }
  }

  lemma {:induction false} BlocksAlternate(steps: seq<Step>, m: Modem)
    requires Run(steps).Some?
    ensures Alternates(Run(steps).value.log, m)
    decreases |steps|
  {
    if steps != [] {
      var front, last := steps[..|steps| - 1], steps[|steps| - 1];
      var s := Run(front).value;
      RunInv(front);
      BlocksAlternate(front, m);
      StepLog(s, last.t, last.c);
      hide Next, Inv, Alternates, ReadyBy;
      var log' := Run(steps).value.log;
      if log' != s.log {
        var r :| log' == s.log + [r] && (r.Accepted? ==> ReadyBy(s.log, r.m));
        AlternatesAppend(s.log, r, m);
      }
    }
  }

  // ---- leaving the wait ------------------------------------------------------------------------

  ghost predicate ReloadedSince(log: seq<Report>, m: Modem, since: nat) {
    exists k :: since <= k < |log| && log[k] == Reloaded(m)
  }

  /** When the watcher began to wait, if it has waited and is on its way out. */
  function WaitedSince(pc: Pc): Option<nat> {
    if (pc.Want? || pc.In?) && pc.at.LeaveWait? then pc.at.since else None
  }

  /** Whoever has been woken, or is about to be, has a reload behind it. */
  ghost predicate WokenOk(s: Sys, m: Modem) {
    var pc := s.pc(Blocked(m));
    && (WaitedSince(pc).Some? ==> ReloadedSince(s.log, m, WaitedSince(pc).value))
    && (pc.Waiting? && Signalling(s, m) ==> ReloadedSince(s.log, m, pc.since))
  }

  lemma LogGrows(s: Sys, t: Thread, c: Choice, m: Modem, since: nat)
    requires Inv(s) && Next(s, t, c).Some? && ReloadedSince(s.log, m, since)
    ensures ReloadedSince(Next(s, t, c).value.log, m, since)
  {
    StepLog(s, t, c);
    var k :| since <= k < |s.log| && s.log[k] == Reloaded(m);
    assert Next(s, t, c).value.log[k] == Reloaded(m);
  }

  /** The watcher is on its way out only because it was before, or has just been signalled. */
  lemma WaitedBefore(s: Sys, t: Thread, c: Choice, m: Modem)
    requires Inv(s) && Next(s, t, c).Some? && !(c == Spurious && t == Blocked(m))
    requires WaitedSince(Next(s, t, c).value.pc(Blocked(m))).Some?
    ensures var pc := s.pc(Blocked(m));
            || WaitedSince(pc) == WaitedSince(Next(s, t, c).value.pc(Blocked(m)))
            || (pc.Waiting? && Signalling(s, m) && Some(pc.since) == WaitedSince(Next(s, t, c).value.pc(Blocked(m))))
  {
    assert PcOk(s, t);
    assert s.pc(t).In? ==> s.owner(s.pc(t).m) == Some(t);
  }

  /** A signal is about to come only because it was before, or because a reload has just finished. */
  lemma SignallingBefore(s: Sys, t: Thread, c: Choice, m: Modem)
    requires Inv(s) && Next(s, t, c).Some?
    requires var s' := Next(s, t, c).value; s'.pc(Blocked(m)).Waiting? && Signalling(s', m)
    ensures s.pc(Blocked(m)) == Next(s, t, c).value.pc(Blocked(m))
    ensures Signalling(s, m) || Next(s, t, c).value.log == s.log + [Reloaded(m)]
  {
    assert PcOk(s, t);
    assert s.pc(t).In? ==> s.owner(s.pc(t).m) == Some(t);
  }

  lemma StepWoken(s: Sys, t: Thread, c: Choice, m: Modem)
    requires Inv(s) && WokenOk(s, m) && Next(s, t, c).Some? && !(c == Spurious && t == Blocked(m))
    ensures WokenOk(Next(s, t, c).value, m)
  {
    var s' := Next(s, t, c).value;
    var pc, pc' := s.pc(Blocked(m)), s'.pc(Blocked(m));
    assert PcOk(s, Blocked(m));
    hide Inv, Next, Signalling;
    forall since | ReloadedSince(s.log, m, since) ensures ReloadedSince(s'.log, m, since) {
      LogGrows(s, t, c, m, since);
    }
    if WaitedSince(pc').Some? {
      WaitedBefore(s, t, c, m);
    } else if pc'.Waiting? && Signalling(s', m) {
      SignallingBefore(s, t, c, m);
      if !Signalling(s, m) {
        assert s'.log[|s.log|] == Reloaded(m);
      }
    }
  }

  /** The watcher of `m` is never woken without a signal. */
  predicate NoSpurious(steps: seq<Step>, m: Modem) {
    forall k :: 0 <= k < |steps| ==> steps[k] != Step(Blocked(m), Spurious)
  }

  lemma {:induction false} RunWoken(steps: seq<Step>, m: Modem)
    requires NoSpurious(steps, m) && Run(steps).Some?
    ensures WokenOk(Run(steps).value, m)
    decreases |steps|
  {
    if steps != [] {
      var front, last := steps[..|steps| - 1], steps[|steps| - 1];
      RunInv(front);
      RunWoken(front, m);
      StepWoken(Run(front).value, last.t, last.c, m);
    }
  }

  /** Unless it is woken without a signal, a watcher that has waited for a modem comes back only after a
      reload of that modem has finished since. */
  lemma LeavesAfterReload(steps: seq<Step>, m: Modem)
    requires NoSpurious(steps, m) && Run(steps).Some?
    ensures var s := Run(steps).value;
            WaitedSince(s.pc(Blocked(m))).Some? ==> ReloadedSince(s.log, m, WaitedSince(s.pc(Blocked(m))).value)
  {
    RunWoken(steps, m);
  }

  /** A watcher that has waited finds the modem ready exactly when a reload of it has finished since, and
      no assert, reset or accepted block of it has come after that reload - in every run, woken by
      a signal or not. */
  lemma LeavesReadyIff(steps: seq<Step>, m: Modem, since: nat)
    requires Run(steps).Some? && WaitedSince(Run(steps).value.pc(Blocked(m))) == Some(since)
    ensures var s := Run(steps).value;
            s.state(m) == READY <==> exists k :: since <= k < |s.log| && s.log[k] == Reloaded(m) && Quiet(s.log, m, k)
  {
    RunInv(steps);
    var s := Run(steps).value;
    assert PcOk(s, Blocked(m));
    hide Run, Inv, ReadyBy, Quiet;
    if s.state(m) == READY {
      var k := ReloadedLast(s.log, m, since);
    }
    if k :| since <= k < |s.log| && s.log[k] == Reloaded(m) && Quiet(s.log, m, k) {
      QuietReady(s.log, m, k);
    }
  }

  lemma Extend(steps: seq<Step>, t: Thread, c: Choice) returns (more: seq<Step>)
    requires Run(steps).Some? && Next(Run(steps).value, t, c).Some?
    ensures more == steps + [Step(t, c)] && Run(more) == Next(Run(steps).value, t, c)
    ensures forall m :: NoSpurious(steps, m) && c != Spurious ==> NoSpurious(more, m)
  {
    more := steps + [Step(t, c)];
    assert more[..|more| - 1] == steps;
  }

  /** Where the two threads of modem TD stand, and what they share. */
  predicate Stands(s: Sys, watcher: Pc, sipc: Pc, state: State, owner: Option<Thread>, log: seq<Report>) {
    s.pc(Blocked(TD)) == watcher && s.pc(Sipc(TD)) == sipc && s.state(TD) == state && s.owner(TD) == owner && s.log == log
  }

  /** The modem asserts. */
  lemma Asserts() returns (r: seq<Step>)
    ensures Run(r).Some? && NoSpurious(r, TD)
    ensures Stands(Run(r).value, Out(Read), Out(Decide), ASSERT, None, [Fell(TD)])
  {
    hide Run, NoSpurious;
    r := [];
    RunNothing();
    r := Extend(r, Sipc(TD), ReadAssert);
    r := Extend(r, Sipc(TD), Go);
    r := Extend(r, Sipc(TD), Go);
    r := Extend(r, Sipc(TD), Go);
  }

  lemma RunNothing()
    ensures Run([]) == Some(BOOT) && NoSpurious([], TD)
  {
  }

  /** The watcher waits for it. */
  lemma AssertAndWait() returns (r: seq<Step>)
    ensures Run(r).Some? && NoSpurious(r, TD)
    ensures Stands(Run(r).value, Waiting(1), Out(Decide), ASSERT, None, [Fell(TD)])
  {
    hide Run, NoSpurious;
    r := Asserts();
    r := Extend(r, Blocked(TD), ReadFails);
    r := Extend(r, Blocked(TD), Go);
    r := Extend(r, Blocked(TD), Go);
    r := Extend(r, Blocked(TD), Go);
  }

  /** The modem is loaded again. */
  lemma Reloads() returns (r: seq<Step>)
    ensures Run(r).Some? && NoSpurious(r, TD)
    ensures Stands(Run(r).value, Waiting(1), In(TD, Signal), READY, Some(Sipc(TD)), [Fell(TD), Reloaded(TD)])
  {
    hide Run, NoSpurious;
    r := AssertAndWait();
    r := Extend(r, Sipc(TD), Enabled);
    r := Extend(r, Sipc(TD), Loaded);
    r := Extend(r, Sipc(TD), Go);
    r := Extend(r, Sipc(TD), Go);
  }

  /** The watcher is signalled. */
  lemma ReloadAndSignal() returns (r: seq<Step>)
    ensures Run(r).Some? && NoSpurious(r, TD)
    ensures Stands(Run(r).value, Want(TD, LeaveWait(Some(1))), Out(Read), READY, None, [Fell(TD), Reloaded(TD)])
  {
    hide Run, NoSpurious;
    r := Reloads();
    r := Extend(r, Sipc(TD), Go);
    r := Extend(r, Sipc(TD), Go);
  }

  /** The wait is an `if`, not a loop: even without spurious wakeups a watcher can come back to a modem
      that is not ready, because it has asserted again before the watcher got the mutex. */
  lemma LeavesUnready() returns (r: seq<Step>)
    ensures Run(r).Some? && NoSpurious(r, TD)
    ensures var s := Run(r).value; s.pc(Blocked(TD)) == In(TD, LeaveWait(Some(1))) && s.state(TD) == ASSERT
  {
    hide Run, NoSpurious;
    r := ReloadAndSignal();
    r := Extend(r, Sipc(TD), ReadAssert);
    r := Extend(r, Sipc(TD), Go);
    r := Extend(r, Sipc(TD), Go);
    r := Extend(r, Sipc(TD), Go);
    r := Extend(r, Blocked(TD), Go);
  }

  /** With a spurious wakeup the watcher comes back although no modem has been reloaded. */
  lemma SpuriousLeaves() returns (r: seq<Step>)
    ensures Run(r).Some?
    ensures var s := Run(r).value; s.pc(Blocked(TD)) == Want(TD, LeaveWait(Some(1))) && s.log == [Fell(TD)]
  {
    hide Run;
    r := AssertAndWait();
    r := Extend(r, Blocked(TD), Spurious);
  }

  // ---- where a thread goes --------------------------------------------------------------------

  /** What the environment decides for thread `t` in the steps. */
  function Own(more: seq<Step>, t: Thread): seq<Choice> {
    if more == [] then []
    else Own(more[..|more| - 1], t) + if more[|more| - 1].t == t then [more[|more| - 1].c] else []
  }

  function Added(before: Option<Sys>, after: Option<Sys>): seq<Report> {
    if before.Some? && after.Some? && |before.value.log| <= |after.value.log| then after.value.log[|before.value.log|..] else []
  }

  /** What the steps of thread `t` in `more`, behind `steps`, add to the log. */
  function Reports(steps: seq<Step>, more: seq<Step>, t: Thread): seq<Report>
    decreases |more|
  {
    if more == [] then []
    else
      var front := more[..|more| - 1];
      Reports(steps, front, t) + if more[|more| - 1].t == t then Added(Run(steps + front), Run(steps + more)) else []
  }

  /** One step of a thread, seen from the thread: its choice, where it leads, and what it adds to the log. */
  datatype Leg = Leg(c: Choice, pc: Pc, added: seq<Report>)

  /** From `pc` the leg is what thread `t` does, whatever the others have done. */
  ghost predicate Leads(t: Thread, pc: Pc, leg: Leg) {
    forall s: Sys :: s.pc(t) == pc && Next(s, t, leg.c).Some? ==>
      Next(s, t, leg.c).value.pc(t) == leg.pc && Next(s, t, leg.c).value.log == s.log + leg.added
  }

  function PcAt(pc: Pc, path: seq<Leg>, j: nat): Pc
    requires j <= |path|
  {
    if j == 0 then pc else path[j - 1].pc
  }

  ghost predicate PathOk(t: Thread, pc: Pc, path: seq<Leg>) {
    && (forall j :: 0 <= j <= |path| ==> !PcAt(pc, path, j).Waiting?)
    && (forall j :: 0 <= j < |path| ==> Leads(t, PcAt(pc, path, j), path[j]))
  }

  function Choices(path: seq<Leg>): (r: seq<Choice>)
    ensures |r| == |path| && forall j :: 0 <= j < |r| ==> r[j] == path[j].c
  {
    if path == [] then [] else Choices(path[..|path| - 1]) + [path[|path| - 1].c]
  }

  function AllAdded(path: seq<Leg>): seq<Report> {
    if path == [] then [] else AllAdded(path[..|path| - 1]) + path[|path| - 1].added
  }

  /** A thread that does not wait is moved by nobody else. */
  lemma OthersLeave(s: Sys, t: Thread, u: Thread, c: Choice)
    requires u != t && !s.pc(t).Waiting? && Next(s, u, c).Some?
    ensures Next(s, u, c).value.pc(t) == s.pc(t)
  {
  }

  lemma RunFront(steps: seq<Step>, more: seq<Step>)
    requires more != [] && Run(steps + more).Some?
    ensures var front, last := more[..|more| - 1], more[|more| - 1];
            Run(steps + front).Some? && Run(steps + more) == Next(Run(steps + front).value, last.t, last.c)
  {
    assert (steps + more)[..|steps + more| - 1] == steps + more[..|more| - 1];
  }

  lemma PathLeg(t: Thread, pc: Pc, path: seq<Leg>, n: nat)
    requires PathOk(t, pc, path) && n <= |path|
    ensures !PcAt(pc, path, n).Waiting?
    ensures n < |path| ==> Leads(t, PcAt(pc, path, n), path[n]) && PcAt(pc, path, n + 1) == path[n].pc
    ensures n < |path| ==> AllAdded(path[..n + 1]) == AllAdded(path[..n]) + path[n].added
  {
    hide Leads;
    if n < |path| {
      assert path[..n + 1][..n] == path[..n];
    }
  }

  lemma OwnNext(more: seq<Step>, t: Thread)
    requires more != []
    ensures var front, last := more[..|more| - 1], more[|more| - 1];
            Own(more, t) == if last.t == t then Own(front, t) + [last.c] else Own(front, t)
  {
  }

  lemma ReportsNext(steps: seq<Step>, more: seq<Step>, t: Thread)
    requires more != []
    ensures var front, last := more[..|more| - 1], more[|more| - 1];
            Reports(steps, more, t)
            == if last.t == t then Reports(steps, front, t) + Added(Run(steps + front), Run(steps + more)) else Reports(steps, front, t)
  {
    hide Run, Added;
  }

  /** However the steps of the other threads come between, a thread goes along the path of its own choices. */
  lemma {:induction false} Along(steps: seq<Step>, more: seq<Step>, t: Thread, pc: Pc, path: seq<Leg>)
    requires Run(steps).Some? && Run(steps + more).Some? && Run(steps).value.pc(t) == pc && PathOk(t, pc, path)
    requires Own(more, t) <= Choices(path)
    ensures var n := |Own(more, t)|;
            Run(steps + more).value.pc(t) == PcAt(pc, path, n) && Reports(steps, more, t) == AllAdded(path[..n])
    decreases |more|
  {
    if more == [] {
      assert steps + more == steps;
    } else {
      hide *;
      var front, last := more[..|more| - 1], more[|more| - 1];
      RunFront(steps, more);
      OwnNext(more, t);
      ReportsNext(steps, more, t);
      Along(steps, front, t, pc, path);
      var s, n := Run(steps + front).value, |Own(front, t)|;
      PathLeg(t, pc, path, n);
      if last.t == t {
        assert Own(more, t)[n] == last.c == path[n].c;
        LeadsStep(s, t, path[n]);
      } else {
        OthersLeave(s, t, last.t, last.c);
      }
    }
  }

  lemma LeadsStep(s: Sys, t: Thread, leg: Leg)
    requires Leads(t, s.pc(t), leg) && Next(s, t, leg.c).Some?
    ensures Next(s, t, leg.c).value.pc(t) == leg.pc && Next(s, t, leg.c).value.log == s.log + leg.added
    ensures Added(Some(s), Next(s, t, leg.c)) == leg.added
  {
  }

  /** The sections in which a modem falls: an accepted block, an assert and a reset. */
  predicate Falls(at: Section) {
    at.Accept? || (at.Assign? && at.v != READY)
  }

  function Fall(m: Modem, at: Section): Report {
    if at.Accept? then Accepted(m) else Fell(m)
  }

  /** Behind a fall, up to the question what to do about it. */
  function FallPath(m: Modem, at: Section, next: Then): seq<Leg> {
    [Leg(Go, In(m, Leave(next)), [Fall(m, at)]), Leg(Go, Out(next), [])]
  }

  /** A successful load, up to the report. */
  function LoadPath(m: Modem): seq<Leg> {
    [Leg(Loaded, Want(m, SetReady), []), Leg(Go, In(m, SetReady), []), Leg(Go, In(m, Signal), [Reloaded(m)])]
  }

  // The legs: leaving a section, taking the mutex, what happens inside, and what happens outside.

  lemma LegLeave(t: Thread, m: Modem, next: Then)
    ensures Leads(t, In(m, Leave(next)), Leg(Go, Out(next), []))
  {
  }

  lemma LegLock(t: Thread, m: Modem, at: Section)
    ensures Leads(t, Want(m, at), Leg(Go, In(m, at), []))
  {
  }

  lemma LegReady(t: Thread, m: Modem)
    ensures Leads(t, In(m, SetReady), Leg(Go, In(m, Signal), [Reloaded(m)]))
  {
  }

  lemma LegFall(t: Thread, m: Modem, at: Section, next: Then)
    requires Falls(at) && next == if at == Assign(RESET) then Load else Decide
    ensures Leads(t, In(m, at), Leg(Go, In(m, Leave(next)), [Fall(m, at)]))
  {
  }

  lemma LegDecide(t: Thread)
    ensures Leads(t, Out(Decide), Leg(Enabled, Out(Load), [])) && Leads(t, Out(Decide), Leg(Disabled, Out(Read), []))
  {
  }

  lemma LegLoad(t: Thread)
    ensures Leads(t, Out(Load), Leg(Loaded, Want(t.modem, SetReady), [])) && Leads(t, Out(Load), Leg(LoadFails, Out(Read), []))
  {
  }

  lemma PathOne(t: Thread, pc: Pc, leg: Leg)
    requires Leads(t, pc, leg) && !pc.Waiting? && !leg.pc.Waiting?
    ensures PathOk(t, pc, [leg])
  {
    hide Leads;
  }

  lemma PathTwo(t: Thread, pc: Pc, a: Leg, b: Leg)
    requires Leads(t, pc, a) && Leads(t, a.pc, b) && !pc.Waiting? && !a.pc.Waiting? && !b.pc.Waiting?
    ensures PathOk(t, pc, [a, b])
  {
    hide Leads;
  }

  lemma LoadPathOk(t: Thread)
    ensures PathOk(t, Out(Load), LoadPath(t.modem))
  {
    hide Leads, PathOk;
    var m := t.modem;
    LegLoad(t);
    LegLock(t, m, SetReady);
    LegReady(t, m);
    var last := Leg(Go, In(m, Signal), [Reloaded(m)]);
    PathTwo(t, Out(Load), Leg(Loaded, Want(m, SetReady), []), Leg(Go, In(m, SetReady), []));
    PathOne(t, In(m, SetReady), last);
    PathJoins(t, Out(Load), [Leg(Loaded, Want(m, SetReady), []), Leg(Go, In(m, SetReady), [])], [last]);
    assert LoadPath(m) == [Leg(Loaded, Want(m, SetReady), []), Leg(Go, In(m, SetReady), [])] + [last];
  }

  lemma PathJoins(t: Thread, pc: Pc, a: seq<Leg>, b: seq<Leg>)
    requires PathOk(t, pc, a) && PathOk(t, PcAt(pc, a, |a|), b)
    ensures PathOk(t, pc, a + b)
  {
    hide Leads;
    var ab := a + b;
    forall j | 0 <= j <= |ab| ensures PcAt(pc, ab, j) == if j <= |a| then PcAt(pc, a, j) else PcAt(PcAt(pc, a, |a|), b, j - |a|) {
    }
    forall j | 0 <= j < |ab| ensures Leads(t, PcAt(pc, ab, j), ab[j]) {
      if j >= |a| {
        assert Leads(t, PcAt(PcAt(pc, a, |a|), b, j - |a|), b[j - |a|]);
      }
    }
  }

  lemma FallPathOk(t: Thread, m: Modem, at: Section, next: Then)
    requires Falls(at) && next == if at == Assign(RESET) then Load else Decide
    ensures PathOk(t, In(m, at), FallPath(m, at, next))
  {
    hide Leads, PathOk, Fall;
    LegFall(t, m, at, next);
    LegLeave(t, m, next);
    PathTwo(t, In(m, at), Leg(Go, In(m, Leave(next)), [Fall(m, at)]), Leg(Go, Out(next), []));
  }

  lemma AskPathOk(t: Thread, c: Choice, next: Then)
    requires (c == Enabled && next == Load) || (c == Disabled && next == Read)
    ensures PathOk(t, Out(Decide), [Leg(c, Out(next), [])])
  {
    hide Leads, PathOk;
    LegDecide(t);
    PathOne(t, Out(Decide), Leg(c, Out(next), []));
  }

  /** A thread that is about to signal has its modem ready. */
  lemma SignalsReady(steps: seq<Step>, t: Thread, m: Modem)
    requires Run(steps).Some? && Run(steps).value.pc(t) == In(m, Signal)
    ensures Run(steps).value.state(m) == READY
  {
    RunInv(steps);
    assert PcOk(Run(steps).value, t);
  }

  /** The way from a fall to the signal, for a block or an assert. */
  function TroublePath(t: Thread, m: Modem, at: Section): seq<Leg> {
    FallPath(m, at, Decide) + ([Leg(Enabled, Out(Load), [])] + LoadPath(t.modem))
  }

  lemma TroublePathOk(t: Thread, m: Modem, at: Section)
    requires at == Accept || at == Assign(ASSERT)
    ensures PathOk(t, In(m, at), TroublePath(t, m, at))
  {
    hide PathOk, Leads;
    var ask := [Leg(Enabled, Out(Load), [])];
    FallPathOk(t, m, at, Decide);
    AskPathOk(t, Enabled, Load);
    LoadPathOk(t);
    PathJoins(t, Out(Decide), ask, LoadPath(t.modem));
    PathJoins(t, In(m, at), FallPath(m, at, Decide), ask + LoadPath(t.modem));
  }

  lemma TroublePathShape(t: Thread, m: Modem, at: Section)
    ensures var path := TroublePath(t, m, at);
            && |path| == 6 && Choices(path) == [Go, Go, Enabled, Loaded, Go, Go] && path[..6] == path
            && AllAdded(path) == [Fall(m, at), Reloaded(t.modem)] && PcAt(In(m, at), path, 6) == In(t.modem, Signal)
  {
    hide Choices, AllAdded;
    AddedTwo(TroublePath(t, m, at), Fall(m, at), 5, Reloaded(t.modem));
  }

  /** A block that has been accepted, or an assert, is answered by a reload if the property is enabled: in every
      run, however the steps of the other threads come between. The modem reloaded is that of the
      thread, and it is ready when the thread comes to signal. */
  lemma TroubleReloads(steps: seq<Step>, more: seq<Step>, t: Thread, m: Modem, at: Section)
    requires Run(steps).Some? && Run(steps + more).Some? && Run(steps).value.pc(t) == In(m, at)
    requires at == Accept || at == Assign(ASSERT)
    requires Own(more, t) == [Go, Go, Enabled, Loaded, Go, Go]
    ensures Reports(steps, more, t) == [Fall(m, at), Reloaded(t.modem)]
    ensures Run(steps + more).value.pc(t) == In(t.modem, Signal) && Run(steps + more).value.state(t.modem) == READY
  {
    hide Run, PathOk, Reports, Own, TroublePath, Choices, AllAdded, PcAt, Fall;
    TroublePathOk(t, m, at);
    TroublePathShape(t, m, at);
    Along(steps, more, t, In(m, at), TroublePath(t, m, at));
    SignalsReady(steps + more, t, t.modem);
  }

  /** A path on which the first leg reports, and the last one. */
  lemma AddedTwo(path: seq<Leg>, a: Report, n: nat, b: Report)
    requires 1 <= n < |path| && |path| == n + 1 && path[0].added == [a] && path[n].added == [b]
    requires forall j :: 0 < j < n ==> path[j].added == []
    ensures AllAdded(path) == [a, b]
  {
    AddedOne(path[..n], a);
  }

  lemma {:induction false} AddedOne(path: seq<Leg>, a: Report)
    requires path != [] && path[0].added == [a] && forall j :: 0 < j < |path| ==> path[j].added == []
    ensures AllAdded(path) == [a]
    decreases |path|
  {
    if |path| == 1 {
      assert path[..0] == [];
    } else {
      AddedOne(path[..|path| - 1], a);
    }
  }

  /** The way from a reset to the signal. */
  function ResetPath(t: Thread, m: Modem): seq<Leg> {
    FallPath(m, Assign(RESET), Load) + LoadPath(t.modem)
  }

  lemma ResetPathOk(t: Thread, m: Modem)
    ensures PathOk(t, In(m, Assign(RESET)), ResetPath(t, m))
  {
    hide PathOk, Leads;
    FallPathOk(t, m, Assign(RESET), Load);
    LoadPathOk(t);
    PathJoins(t, In(m, Assign(RESET)), FallPath(m, Assign(RESET), Load), LoadPath(t.modem));
  }

  lemma ResetPathShape(t: Thread, m: Modem)
    ensures var path, pc := ResetPath(t, m), In(m, Assign(RESET));
            && |path| == 5 && Choices(path) == [Go, Go, Loaded, Go, Go] && path[..5] == path
            && AllAdded(path) == [Fell(m), Reloaded(t.modem)]
            && PcAt(pc, path, 5) == In(t.modem, Signal) && PcAt(pc, path, 2) == Out(Load)
  {
    hide Choices, AllAdded;
    AddedTwo(ResetPath(t, m), Fell(m), 4, Reloaded(t.modem));
  }

  /** A reset is answered by a reload without a look at the property. */
  lemma ResetReloads(steps: seq<Step>, more: seq<Step>, t: Thread, m: Modem)
    requires Run(steps).Some? && Run(steps + more).Some? && Run(steps).value.pc(t) == In(m, Assign(RESET))
    ensures Own(more, t) == [Go, Go, Loaded, Go, Go] ==>
              && Reports(steps, more, t) == [Fell(m), Reloaded(t.modem)]
              && Run(steps + more).value.pc(t) == In(t.modem, Signal) && Run(steps + more).value.state(t.modem) == READY
    ensures Own(more, t) == [Go, Go] ==>
              var s := Run(steps + more).value; Next(s, t, Enabled).None? && Next(s, t, Disabled).None?
  {
    hide Run, PathOk, Reports, Own, ResetPath, Choices, AllAdded, PcAt, Next;
    ResetPathOk(t, m);
    ResetPathShape(t, m);
    if Own(more, t) == [Go, Go, Loaded, Go, Go] {
      Along(steps, more, t, In(m, Assign(RESET)), ResetPath(t, m));
      SignalsReady(steps + more, t, t.modem);
    } else if Own(more, t) == [Go, Go] {
      Along(steps, more, t, In(m, Assign(RESET)), ResetPath(t, m));
      NotAsked(Run(steps + more).value, t);
    }
  }

  lemma NotAsked(s: Sys, t: Thread)
    requires s.pc(t) == Out(Load)
    ensures Next(s, t, Enabled).None? && Next(s, t, Disabled).None?
  {
  }

  /** With the property disabled, or when the load fails, the thread goes back to reading, and has reloaded
      nothing. */
  lemma NothingReloaded(steps: seq<Step>, more: seq<Step>, t: Thread, m: Modem, at: Section)
    requires Run(steps).Some? && Run(steps + more).Some? && Run(steps).value.pc(t) == In(m, at) && Falls(at)
    requires if at == Assign(RESET) then Own(more, t) == [Go, Go, LoadFails]
             else Own(more, t) == [Go, Go, Disabled] || Own(more, t) == [Go, Go, Enabled, LoadFails]
    ensures Reports(steps, more, t) == [Fall(m, at)] && Run(steps + more).value.pc(t) == Out(Read)
  {
    hide Run, PathOk, Reports, Own, FallPath, Choices, AllAdded, PcAt, Fall, Leads;
    var next := if at == Assign(RESET) then Load else Decide;
    var end := if at == Assign(RESET) then [Leg(LoadFails, Out(Read), [])]
               else if Own(more, t) == [Go, Go, Disabled] then [Leg(Disabled, Out(Read), [])]
               else [Leg(Enabled, Out(Load), []), Leg(LoadFails, Out(Read), [])];
    GivesUpShape(t, m, at, next, end, Own(more, t));
    Along(steps, more, t, In(m, at), FallPath(m, at, next) + end);
  }

  lemma GivesUpShape(t: Thread, m: Modem, at: Section, next: Then, end: seq<Leg>, own: seq<Choice>)
    requires Falls(at) && next == if at == Assign(RESET) then Load else Decide
    requires || (next == Load && end == [Leg(LoadFails, Out(Read), [])] && own == [Go, Go, LoadFails])
             || (next == Decide && end == [Leg(Disabled, Out(Read), [])] && own == [Go, Go, Disabled])
             || (next == Decide && end == [Leg(Enabled, Out(Load), []), Leg(LoadFails, Out(Read), [])]
                 && own == [Go, Go, Enabled, LoadFails])
    ensures var path := FallPath(m, at, next) + end;
            && PathOk(t, In(m, at), path) && |path| == |own| && Choices(path) == own && path[..|path|] == path
            && AllAdded(path) == [Fall(m, at)] && PcAt(In(m, at), path, |path|) == Out(Read)
  {
    hide PathOk, AllAdded, Leads;
    FallPathOk(t, m, at, next);
    GivesUp(t, next, end);
    PathJoins(t, In(m, at), FallPath(m, at, next), end);
    AddedOne(FallPath(m, at, next) + end, Fall(m, at));
  }

  lemma GivesUp(t: Thread, next: Then, end: seq<Leg>)
    requires || (next == Load && end == [Leg(LoadFails, Out(Read), [])])
             || (next == Decide && end == [Leg(Disabled, Out(Read), [])])
             || (next == Decide && end == [Leg(Enabled, Out(Load), []), Leg(LoadFails, Out(Read), [])])
    ensures PathOk(t, Out(next), end)
  {
    hide Leads, PathOk;
    LegDecide(t);
    LegLoad(t);
    if |end| == 1 {
      PathOne(t, Out(next), end[0]);
      assert end == [end[0]];
    } else {
      PathTwo(t, Out(next), end[0], end[1]);
      assert end == [end[0], end[1]];
    }
  }

  // ---- a reload can always be made ---------------------------------------------------------------

  /** A fall, and the way out of the critical section, when nobody else moves. */
  lemma FallAlone(steps: seq<Step>, t: Thread, m: Modem, at: Section, next: Then) returns (r: seq<Step>)
    requires Run(steps).Some? && Run(steps).value.pc(t) == In(m, at) && Falls(at)
    requires next == if at == Assign(RESET) then Load else Decide
    requires m == t.modem || Run(steps).value.owner(t.modem).None?
    ensures r == steps + [Step(t, Go), Step(t, Go)] && Run(r).Some?
    ensures var s, s' := Run(steps).value, Run(r).value;
            && s'.pc(t) == Out(next) && s'.owner(t.modem).None? && s'.log == s.log + [Fall(m, at)]
            && s'.state(m) == if at.Accept? then ASSERT else at.v
  {
    hide Run, NoSpurious;
    r := Extend(steps, t, Go);
    r := Extend(r, t, Go);
  }

  /** A load, the report and the signal. */
  lemma LoadAlone(steps: seq<Step>, t: Thread) returns (r: seq<Step>)
    requires Run(steps).Some? && Run(steps).value.pc(t) == Out(Load) && Run(steps).value.owner(t.modem).None?
    ensures r == steps + [Step(t, Loaded), Step(t, Go), Step(t, Go), Step(t, Go), Step(t, Go)] && Run(r).Some?
    ensures var s, s' := Run(steps).value, Run(r).value;
            && s'.pc(t) == Out(Read) && s'.owner(t.modem).None? && s'.log == s.log + [Reloaded(t.modem)]
            && s'.state(t.modem) == READY && forall n :: n != t.modem ==> s'.state(n) == s.state(n)
  {
    hide Run, NoSpurious;
    r := LoadInto(steps, t);
    r := Extend(r, t, Go);
    r := Extend(r, t, Go);
  }

  lemma LoadInto(steps: seq<Step>, t: Thread) returns (r: seq<Step>)
    requires Run(steps).Some? && Run(steps).value.pc(t) == Out(Load) && Run(steps).value.owner(t.modem).None?
    ensures r == steps + [Step(t, Loaded), Step(t, Go), Step(t, Go)] && Run(r).Some?
    ensures var s, s' := Run(steps).value, Run(r).value;
            && s'.pc(t) == In(t.modem, Signal) && s'.log == s.log + [Reloaded(t.modem)]
            && s'.state(t.modem) == READY && forall n :: n != t.modem ==> s'.state(n) == s.state(n)
  {
    hide Run, NoSpurious;
    r := Extend(steps, t, Loaded);
    r := Extend(r, t, Go);
    r := Extend(r, t, Go);
  }

  lemma AskAlone(steps: seq<Step>, t: Thread) returns (r: seq<Step>)
    requires Run(steps).Some? && Run(steps).value.pc(t) == Out(Decide)
    ensures r == steps + [Step(t, Enabled)] && Run(r).Some?
    ensures var s, s' := Run(steps).value, Run(r).value;
            s'.pc(t) == Out(Load) && s'.owner == s.owner && s'.log == s.log && s'.state == s.state
  {
    hide Run, NoSpurious;
    r := Extend(steps, t, Enabled);
  }

  /** From every fall, with the property enabled where it is asked and a load that succeeds, the thread alone
      brings its modem back, if the mutex of that is free. That is the modem that fell exactly if the thread
      watches it: a watcher that reads a block report about the other modem reloads its own. */
  lemma CanReload(steps: seq<Step>, t: Thread, m: Modem, at: Section) returns (r: seq<Step>)
    requires Run(steps).Some? && Run(steps).value.pc(t) == In(m, at) && Falls(at)
    requires m == t.modem || Run(steps).value.owner(t.modem).None?
    ensures steps <= r && (forall k :: |steps| <= k < |r| ==> r[k].t == t) && Run(r).Some?
    ensures var s, s' := Run(steps).value, Run(r).value;
            && s'.pc(t) == Out(Read) && s'.log == s.log + [Fall(m, at), Reloaded(t.modem)] && s'.state(t.modem) == READY
            && (s'.state(m) == READY <==> m == t.modem)
  {
    hide Run, Fall;
    r := FallAlone(steps, t, m, at, if at == Assign(RESET) then Load else Decide);
    if at != Assign(RESET) {
      r := AskAlone(r, t);
    }
    r := LoadAlone(r, t);
  }

  // ---- hearing about it --------------------------------------------------------------------------

  /** What a thread hears, and the section it goes to for it. */
  predicate Hears(t: Thread, c: Choice, m: Modem, at: Section) {
    match c
    case ReadReset => t.Sipc? && m == t.modem && at == Assign(RESET)
    case ReadAssert => t.Sipc? && m == t.modem && at == Assign(ASSERT)
    case ReadBlocked(n) => t.Blocked? && m == n && at == CheckBlocked
    case ReadFails => t.Blocked? && m == t.modem && at == CheckWait
    case _ => false
  }

  lemma HearsLeads(t: Thread, c: Choice, m: Modem, at: Section)
    requires Hears(t, c, m, at)
    ensures Leads(t, Out(Read), Leg(c, Want(m, at), []))
  {
  }

  lemma HearsGoes(steps: seq<Step>, more: seq<Step>, t: Thread, c: Choice, m: Modem, at: Section)
    requires Run(steps).Some? && Run(steps + more).Some? && Run(steps).value.pc(t) == Out(Read)
    requires Hears(t, c, m, at) && Own(more, t) == [c, Go]
    ensures Run(steps + more).value.pc(t) == In(m, at) && Reports(steps, more, t) == []
  {
    hide Run, Reports, Own, PathOk, Leads, Hears;
    var a, b := Leg(c, Want(m, at), []), Leg(Go, In(m, at), []);
    HearsLeads(t, c, m, at);
    LegLock(t, m, at);
    PathTwo(t, Out(Read), a, b);
    assert [a, b][..2] == [a, b] && [a, b][..1] == [a];
    assert AllAdded([a]) == [] && AllAdded([a, b]) == AllAdded([a]) + [];
    Along(steps, more, t, Out(Read), [a, b]);
  }

  /** Nobody else changes the state of a modem while a thread is inside. */
  lemma StateHeld(s: Sys, t: Thread, m: Modem, u: Thread, c: Choice)
    requires Inv(s) && s.pc(t).In? && s.pc(t).m == m && u != t && Next(s, u, c).Some?
    ensures Next(s, u, c).value.state(m) == s.state(m) && Next(s, u, c).value.pc(t) == s.pc(t)
  {
    assert s.owner(m) == Some(t);
    assert s.pc(u).In? ==> s.owner(s.pc(u).m) == Some(u);
    OthersLeave(s, t, u, c);
  }

  lemma {:induction false} Holds(steps: seq<Step>, more: seq<Step>, t: Thread, m: Modem)
    requires Run(steps).Some? && Run(steps + more).Some? && Own(more, t) == []
    requires Run(steps).value.pc(t).In? && Run(steps).value.pc(t).m == m
    ensures var s, s' := Run(steps).value, Run(steps + more).value; s'.pc(t) == s.pc(t) && s'.state(m) == s.state(m)
    ensures Reports(steps, more, t) == []
    decreases |more|
  {
    if more == [] {
      assert steps + more == steps;
    } else {
      hide *;
      var front, last := more[..|more| - 1], more[|more| - 1];
      RunFront(steps, more);
      OwnNext(more, t);
      ReportsNext(steps, more, t);
      Holds(steps, front, t, m);
      RunInv(steps + front);
      StateHeld(Run(steps + front).value, t, m, last.t, last.c);
    }
  }

  lemma {:induction false} OwnSplit(a: seq<Step>, b: seq<Step>, t: Thread)
    ensures Own(a + b, t) == Own(a, t) + Own(b, t)
    decreases |b|
  {
    if b == [] {
      assert a + b == a;
    } else {
      assert (a + b)[..|a + b| - 1] == a + b[..|b| - 1];
      OwnSplit(a, b[..|b| - 1], t);
    }
  }

  lemma {:induction false} ReportsSplit(steps: seq<Step>, a: seq<Step>, b: seq<Step>, t: Thread)
    ensures Reports(steps, a + b, t) == Reports(steps, a, t) + Reports(steps + a, b, t)
    decreases |b|
  {
    hide Run, Added;
    if b == [] {
      assert a + b == a;
    } else {
      var front := b[..|b| - 1];
      assert (a + b)[..|a + b| - 1] == a + front;
      assert steps + (a + front) == steps + a + front && steps + (a + b) == steps + a + b;
      ReportsSplit(steps, a, front, t);
    }
  }

  /** The first step of a thread's own. */
  lemma {:induction false} FirstOwn(more: seq<Step>, t: Thread) returns (n: nat)
    requires Own(more, t) != []
    ensures n < |more| && more[n] == Step(t, Own(more, t)[0]) && Own(more[..n], t) == []
    ensures Own(more[n + 1..], t) == Own(more, t)[1..]
    decreases |more|
  {
    var front, last := more[..|more| - 1], more[|more| - 1];
    if Own(front, t) == [] {
      n := |more| - 1;
      assert more[..n] == front && more[n + 1..] == [];
    } else {
      n := FirstOwn(front, t);
      assert front[..n] == more[..n] && more[n + 1..][..|more| - n - 2] == front[n + 1..];
    }
  }

  lemma {:induction false} RunPrefix(steps: seq<Step>, n: nat)
    requires Run(steps).Some? && n <= |steps|
    ensures Run(steps[..n]).Some?
    decreases |steps|
  {
    if n == |steps| {
      assert steps[..n] == steps;
    } else {
      RunPrefix(steps[..|steps| - 1], n);
      assert steps[..|steps| - 1][..n] == steps[..n];
    }
  }

  /** The first step of its own of a thread that is inside: it is made in the state that it found. */
  lemma InsideStep(steps: seq<Step>, more: seq<Step>, t: Thread, m: Modem) returns (early: seq<Step>, late: seq<Step>)
    requires Run(steps).Some? && Run(steps + more).Some? && Own(more, t) != []
    requires Run(steps).value.pc(t).In? && Run(steps).value.pc(t).m == m
    ensures steps + more == steps + early + [Step(t, Own(more, t)[0])] + late && Own(late, t) == Own(more, t)[1..]
    ensures Run(steps + early).Some? && Run(steps + early + [Step(t, Own(more, t)[0])]).Some?
    ensures Run(steps + early + [Step(t, Own(more, t)[0])]) == Next(Run(steps + early).value, t, Own(more, t)[0])
    ensures var s, s' := Run(steps).value, Run(steps + early).value; s'.pc(t) == s.pc(t) && s'.state(m) == s.state(m)
    ensures Reports(steps, more, t)
            == Added(Run(steps + early), Run(steps + early + [Step(t, Own(more, t)[0])]))
               + Reports(steps + early + [Step(t, Own(more, t)[0])], late, t)
  {
    hide Run, Reports, Own, Added, Next;
    var n := FirstOwn(more, t);
    early, late := more[..n], more[n + 1..];
    var one := [more[n]];
    assert more == early + one + late && steps + more == steps + early + one + late;
    assert (steps + more)[..|steps| + n] == steps + early && (steps + more)[..|steps| + n + 1] == steps + early + one;
    RunPrefix(steps + more, |steps| + n);
    RunPrefix(steps + more, |steps| + n + 1);
    RunFront(steps + early, one);
    assert one[..0] == [] && steps + early + [] == steps + early;
    Holds(steps, early, t, m);
    ReportsSplit(steps, early, one + late, t);
    assert early + (one + late) == more;
    ReportsSplit(steps + early, one, late, t);
    ReportsNext(steps + early, one, t);
    NoReports(steps + early, t);
  }

  lemma NoReports(steps: seq<Step>, t: Thread)
    ensures Reports(steps, [], t) == []
  {
  }

  /** A fall is noted in the state and in the log. */
  lemma FallNoted(steps: seq<Step>, more: seq<Step>, t: Thread, m: Modem, at: Section)
    requires Run(steps).Some? && Run(steps + more).Some? && Run(steps).value.pc(t) == In(m, at) && Falls(at)
    requires Own(more, t) == [Go]
    ensures var s := Run(steps + more).value; s.state(m) == (if at.Accept? then ASSERT else at.v) && s.pc(t).In?
    ensures Reports(steps, more, t) == [Fall(m, at)]
  {
    hide Run, Reports, Own;
    var early, late := InsideStep(steps, more, t, m);
    Holds(steps + early + [Step(t, Go)], late, t, m);
    assert steps + early + [Step(t, Go)] + late == steps + more;
  }

  /** A block report about modem `m` is accepted exactly if that is ready when the thread looks, and then noted;
      otherwise the thread goes back to reading, and has said nothing. */
  lemma BlockChecked(steps: seq<Step>, more: seq<Step>, t: Thread, m: Modem)
    requires Run(steps).Some? && Run(steps + more).Some? && Run(steps).value.pc(t) == In(m, CheckBlocked)
    requires Own(more, t) == [Go, Go]
    ensures var s := Run(steps + more).value;
            if Run(steps).value.state(m) == READY
            then Reports(steps, more, t) == [Accepted(m)] && s.state(m) == ASSERT && s.pc(t).In?
            else Reports(steps, more, t) == [] && s.pc(t) == Out(Read)
  {
    hide Run, Reports, Own;
    var early, late := InsideStep(steps, more, t, m);
    var mid := steps + early + [Step(t, Go)];
    if Run(steps).value.state(m) == READY {
      FallNoted(mid, late, t, m, Accept);
    } else {
      LeavesReading(mid, late, t, m);
    }
  }

  lemma LeavesReading(steps: seq<Step>, more: seq<Step>, t: Thread, m: Modem)
    requires Run(steps).Some? && Run(steps + more).Some? && Run(steps).value.pc(t) == In(m, Leave(Read)) && Own(more, t) == [Go]
    ensures Reports(steps, more, t) == [] && Run(steps + more).value.pc(t) == Out(Read)
  {
    hide Run, Reports, Own, PathOk, Leads;
    var leg := Leg(Go, Out(Read), []);
    LegLeave(t, m, Read);
    PathOne(t, In(m, Leave(Read)), leg);
    assert [leg][..1] == [leg] && [leg][..0] == [];
    Along(steps, more, t, In(m, Leave(Read)), [leg]);
  }

  /** A watcher whose read has failed waits, from its own last step on, exactly if its modem is not ready when it
      looks. */
  lemma WaitChecked(steps: seq<Step>, more: seq<Step>, t: Thread, m: Modem)
    requires Run(steps).Some? && Run(steps + more).Some? && Run(steps).value.pc(t) == In(m, CheckWait)
    requires Own(more, t) == [Go, Go] && more[|more| - 1].t == t
    ensures var s := Run(steps + more).value;
            s.pc(t) == if Run(steps).value.state(m) != READY then Waiting(|s.log|) else Out(Read)
    ensures Reports(steps, more, t) == []
  {
    hide Run, Reports, Own;
    var early, late := InsideStep(steps, more, t, m);
    var mid := steps + early + [Step(t, Go)];
    var early', late' := InsideStep(mid, late, t, m);
    LastOwn(late', t, steps + more, mid + early' + [Step(t, Go)]);
    NoReports(mid + early' + [Step(t, Go)], t);
  }

  lemma LastOwn(late: seq<Step>, t: Thread, all: seq<Step>, before: seq<Step>)
    requires Own(late, t) == [] && all == before + late && all != [] && all[|all| - 1].t == t && before != []
    ensures late == [] && all == before
  {
    if late != [] {
      OwnNext(late, t);
    }
  }
}
