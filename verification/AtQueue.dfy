/** The queue that coalesces the audio HAL's AT commands for the modem. */
module AtQueue {
  import opened Words

  const SLOTS: nat := 8
  const CMD_LENGTH: nat := 32

  type Slot = n: nat | n < SLOTS

  /** A command that fits its slot with the terminating zero. */
  type Command = s: string | |s| < CMD_LENGTH

  /** `T_AT_CMD`; the dirty mask is kept as the set of its bits. */
  datatype Queue = Queue(cmd: seq<Command>, priority: seq<u32>, dirty: set<Slot>)

  predicate EightSlots(q: Queue) {
    |q.cmd| == SLOTS && |q.priority| == SLOTS
  }

  const EMPTY: Queue := Queue(["", "", "", "", "", "", "", ""], [0, 0, 0, 0, 0, 0, 0, 0], {})

  /** The first place of the greatest element. */
  function ArgMax(s: seq<u32>): (i: nat)
    requires s != []
    ensures i < |s| && forall k :: 0 <= k < |s| ==> s[k] <= s[i] && (k < i ==> s[k] < s[i])
  {
    if |s| == 1 then 0
    else
      var i := ArgMax(s[..|s| - 1]);
      if s[i] < s[|s| - 1] then |s| - 1 else i
  }

  /** `process_priority`; the result is returned as a `uint8_t`. */
  function NextPriority(priority: seq<u32>): u32
    requires priority != []
  {
    (priority[ArgMax(priority)] as int + 1) % 256
  }

  function Push(q: Queue, bit: Slot, cmd: Command): (r: Queue)
    requires EightSlots(q)
    ensures EightSlots(r)
  {
    Queue(q.cmd[bit := cmd], q.priority[bit := NextPriority(q.priority)], q.dirty + {bit})
  }

  /** The slots that the selection loop of `do_cmd_dual` picks, the most urgent first. */
  function Select(priority: seq<u32>, count: nat): (bits: seq<Slot>)
    requires |priority| == SLOTS
    ensures |bits| == count
    decreases count
  {
    if count == 0 then []
    else
      var bit := ArgMax(priority);
      [bit] + Select(priority[bit := 0], count - 1)
  }

  /** The commands of the slots in `bits`, last slot first, as the sending loop takes them. */
  function Backwards(cmd: seq<Command>, bits: seq<Slot>): (s: seq<Command>)
    requires |cmd| == SLOTS
    ensures |s| == |bits| && forall k :: 0 <= k < |s| ==> s[k] == cmd[bits[|bits| - 1 - k]]
  {
    if bits == [] then [] else Backwards(cmd, bits[1..]) + [cmd[bits[0]]]
  }

  /** What `do_cmd_dual` sends, and the queue it leaves. */
  function Drain(q: Queue): (Queue, seq<Command>)
    requires EightSlots(q)
  {
    if q.dirty == {} then (q, []) else (EMPTY, Backwards(q.cmd, Select(q.priority, |q.dirty|)))
  }

  /** The structure that the pushing and the draining thread share; each method runs under `ATlock`
      as far as it touches the structure. */
  class AtVectors {
    const atCmd: array<Command>
    const priority: array<u32>
    var dirty: set<Slot>

    ghost predicate Valid() {
      atCmd.Length == SLOTS && priority.Length == SLOTS
    }

    ghost function View(): (q: Queue)
      requires Valid()
      reads this, atCmd, priority
      ensures EightSlots(q)
    {
      Queue(atCmd[..], priority[..], dirty)
    }

    constructor ()
      ensures Valid() && View() == EMPTY && fresh(atCmd) && fresh(priority)
    {
      atCmd := new Command[SLOTS](_ => "");
      priority := new u32[SLOTS](_ => 0);
      dirty := {};
      new;
      assert View() == EMPTY;
    }

    /** `process_priority` */
    method ProcessPriority() returns (pri: u32)
      requires Valid()
      ensures pri == NextPriority(priority[..])
    {
      var max := priority[0];
      for i := 0 to SLOTS
        invariant exists k :: 0 <= k < SLOTS && priority[k] == max
        invariant priority[0] <= max && forall k :: 0 <= k < i ==> priority[k] <= max
      {
        if max < priority[i] {
          max := priority[i];
        }
      }
      var best := ArgMax(priority[..]);
      assert priority[..][best] == max;
      return (max as int + 1) % 256;
    }

    /** `push_voice_command` */
    method PushVoiceCommand(cmd: Command, bit: Slot)
      requires Valid()
      modifies this, atCmd, priority
      ensures View() == Push(old(View()), bit, cmd)
    {
      dirty := dirty + {bit};
      atCmd[bit] := cmd;
      var pri := ProcessPriority();
      priority[bit] := pri;
    }

    /** `do_cmd_dual`: the commands are returned in the order in which they are sent. */
    method DoCmdDual() returns (sent: seq<Command>)
      requires Valid()
      modifies this, atCmd, priority
      ensures (View(), sent) == Drain(old(View()))
    {
      var count := |dirty|;
      sent := [];
      if count == 0 { return; }
      var cmd, pri := atCmd[..], priority[..];
      forall i | 0 <= i < SLOTS { atCmd[i] := ""; }
      forall i | 0 <= i < SLOTS { priority[i] := 0; }
      dirty := {};
      assert View() == EMPTY;
      var bits := PickOrder(pri, count);
      sent := SendOrder(cmd, bits);
    }
  }

  /** The inner selection loop. */
  method MaxPriorityBit(pri: seq<u32>) returns (bit: Slot)
    requires |pri| == SLOTS
    ensures bit == ArgMax(pri)
  {
    var max := pri[0];
    bit := 0;
    for i := 0 to SLOTS
      invariant max == pri[bit] && (i == 0 ==> bit == 0)
      invariant forall k :: 0 <= k < i ==> pri[k] <= max
      invariant i > 0 ==> bit < i && forall k :: 0 <= k < bit ==> pri[k] < max
    {
      if max < pri[i] {
        max, bit := pri[i], i;
      }
    }
  }

  /** The selection loop over the snapshot. */
  method PickOrder(snapshot: seq<u32>, count: nat) returns (bits: seq<Slot>)
    requires |snapshot| == SLOTS
    ensures bits == Select(snapshot, count)
  {
    bits := [];
    var pri := snapshot;
    for n := 0 to count
      invariant |pri| == SLOTS && bits + Select(pri, count - n) == Select(snapshot, count)
    {
      var bit := MaxPriorityBit(pri);
      pri := pri[bit := 0];
      bits := bits + [bit];
    }
  }

  /** The sending loop, which walks the selection from its end. */
  method SendOrder(cmd: seq<Command>, bits: seq<Slot>) returns (sent: seq<Command>)
    requires |cmd| == SLOTS
    ensures sent == Backwards(cmd, bits)
  {
    sent := [];
    for i := 0 to |bits|
      invariant |sent| == i && forall k :: 0 <= k < i ==> sent[k] == cmd[bits[|bits| - 1 - k]]
    {
      sent := sent + [cmd[bits[|bits| - i - 1]]];
    }
  }

  // ---- what a drain has to send -----------------------------------------------------------

  datatype Pushed = Pushed(bit: Slot, cmd: Command)

  /** The queue after the pushes `log`, from an empty one. */
  function After(log: seq<Pushed>): (q: Queue)
    ensures EightSlots(q)
  {
    if log == [] then EMPTY
    else
      var p := log[|log| - 1];
      Push(After(log[..|log| - 1]), p.bit, p.cmd)
  }

  /** `log[i]` is the last push to its slot. */
  predicate IsLast(log: seq<Pushed>, i: nat)
    requires i < |log|
  {
    forall j :: i < j < |log| ==> log[j].bit != log[i].bit
  }

  /** The last pushes to the slots in `slots`, as places in the log, in the order in which they were
      made. */
  function Latest(log: seq<Pushed>, slots: set<Slot>): (r: seq<nat>)
    ensures forall k :: 0 <= k < |r| ==> r[k] < |log|
    decreases |log|
  {
    if log == [] then []
    else
      var bit, rest := log[|log| - 1].bit, log[..|log| - 1];
      if bit in slots then Latest(rest, slots - {bit}) + [|log| - 1] else Latest(rest, slots)
  }

  const ALL: set<Slot> := {0, 1, 2, 3, 4, 5, 6, 7}

  /** `Latest` is what it should be: it lists exactly the last pushes, in order. */
  lemma {:induction false} LatestExact(log: seq<Pushed>, slots: set<Slot>)
    ensures var r := Latest(log, slots);
            && (forall j, k :: 0 <= j < k < |r| ==> r[j] < r[k])
            && (forall i :: 0 <= i < |log| ==> (i in r <==> log[i].bit in slots && IsLast(log, i)))
    decreases |log|
  {
    if log != [] {
      var n, bit, rest := |log| - 1, log[|log| - 1].bit, log[..|log| - 1];
      var slots' := if bit in slots then slots - {bit} else slots;
      LatestExact(rest, slots');
      assert forall i :: 0 <= i < n ==> rest[i] == log[i];
      forall i | 0 <= i < n
        ensures log[i].bit != bit ==> (IsLast(log, i) <==> IsLast(rest, i))
        ensures log[i].bit == bit ==> !IsLast(log, i)
      {
      }
    }
  }

  function Commands(log: seq<Pushed>, places: seq<nat>): (s: seq<Command>)
    requires forall k :: 0 <= k < |places| ==> places[k] < |log|
    ensures |s| == |places| && forall k :: 0 <= k < |s| ==> s[k] == log[places[k]].cmd
  {
    if places == [] then []
    else Commands(log, places[..|places| - 1]) + [log[places[|places| - 1]].cmd]
  }

  /** What a drain after the pushes `log` has to send. */
  function Due(log: seq<Pushed>): seq<Command> {
    Commands(log, Latest(log, ALL))
  }

  /** The number of the last push to slot `b`, counted from 1; 0 when there is none. */
  function LastPush(log: seq<Pushed>, b: Slot): (n: nat)
    ensures n <= |log|
    ensures n > 0 ==> log[n - 1].bit == b && IsLast(log, n - 1)
    ensures n == 0 ==> forall j :: 0 <= j < |log| ==> log[j].bit != b
    decreases |log|
  {
    if log == [] then 0
    else if log[|log| - 1].bit == b then |log|
    else LastPush(log[..|log| - 1], b)
  }

  /** The invariant: as long as no priority has wrapped, the priority of every slot is the number of
      the last push to it. So the positive priorities are distinct, and they sit exactly on
      the dirty bits. */
  predicate NumberedAt(q: Queue, log: seq<Pushed>, b: Slot)
    requires EightSlots(q)
  {
    var n := LastPush(log, b);
    && q.priority[b] == n
    && (b in q.dirty <==> n > 0)
    && q.cmd[b] == if n > 0 then log[n - 1].cmd else ""
  }

  predicate Numbered(q: Queue, log: seq<Pushed>)
    requires EightSlots(q)
  {
    forall b: Slot :: NumberedAt(q, log, b)
  }

  lemma EmptyNumbered()
    ensures Numbered(EMPTY, [])
  {
    forall b: Slot ensures NumberedAt(EMPTY, [], b) {
    }
  }

  lemma StepNumbered(q: Queue, log: seq<Pushed>, p: Pushed)
    requires EightSlots(q) && Numbered(q, log) && |log| < 255
    ensures Numbered(Push(q, p.bit, p.cmd), log + [p])
  {
    NumberedMax(q, log);
    assert NextPriority(q.priority) == |log| + 1;
    hide NextPriority, LastPush, NumberedAt, Push;
    forall b: Slot ensures NumberedAt(Push(q, p.bit, p.cmd), log + [p], b) {
      PushNumbered(q, log, p, b);
    }
  }

  lemma {:induction false} AfterNumbered(log: seq<Pushed>)
    requires |log| <= 255
    ensures Numbered(After(log), log)
    decreases |log|
  {
    hide Numbered, Push;
    if log == [] {
      EmptyNumbered();
    } else {
      var rest, p := log[..|log| - 1], log[|log| - 1];
      AfterNumbered(rest);
      StepNumbered(After(rest), rest, p);
      assert rest + [p] == log;
    }
  }

  lemma NumberedMax(q: Queue, log: seq<Pushed>)
    requires EightSlots(q) && Numbered(q, log) && |log| <= 255
    ensures q.priority[ArgMax(q.priority)] == |log|
  {
    var i := ArgMax(q.priority);
    assert NumberedAt(q, log, i);
    if log != [] {
      var b := log[|log| - 1].bit;
      assert NumberedAt(q, log, b);
    }
  }

  lemma PushNumbered(q: Queue, log: seq<Pushed>, p: Pushed, b: Slot)
    requires EightSlots(q) && NumberedAt(q, log, b) && NextPriority(q.priority) == |log| + 1
    ensures NumberedAt(Push(q, p.bit, p.cmd), log + [p], b)
  {
    var log' := log + [p];
    assert log'[..|log'| - 1] == log;
    hide NextPriority;
    assert LastPush(log', b) == if p.bit == b then |log'| else LastPush(log, b);
  }

  /** The priorities of the slots in `slots`, the others being 0. */
  predicate Masked(pri: seq<u32>, log: seq<Pushed>, slots: set<Slot>) {
    |pri| == SLOTS && forall b: Slot :: pri[b] == if b in slots then LastPush(log, b) else 0
  }

  function Bits(log: seq<Pushed>, places: seq<nat>): (s: seq<Slot>)
    requires forall k :: 0 <= k < |places| ==> places[k] < |log|
    ensures |s| == |places| && forall k :: 0 <= k < |s| ==> s[k] == log[places[|places| - 1 - k]].bit
  {
    if places == [] then []
    else [log[places[|places| - 1]].bit] + Bits(log, places[..|places| - 1])
  }

  lemma MaskedPrefix(pri: seq<u32>, log: seq<Pushed>, slots: set<Slot>)
    requires log != [] && Masked(pri, log, slots) && log[|log| - 1].bit !in slots
    ensures Masked(pri, log[..|log| - 1], slots)
  {
    forall b: Slot ensures b in slots ==> LastPush(log, b) == LastPush(log[..|log| - 1], b) {
    }
  }

  lemma MaskedMax(pri: seq<u32>, log: seq<Pushed>, slots: set<Slot>)
    requires log != [] && Masked(pri, log, slots) && log[|log| - 1].bit in slots
    ensures var bit := log[|log| - 1].bit; ArgMax(pri) == bit && Masked(pri[bit := 0], log, slots - {bit})
  {
    var bit := log[|log| - 1].bit;
    assert pri[bit] == |log|;
    forall b: Slot | b != bit ensures pri[b] < |log| {
      assert pri[b] == if b in slots then LastPush(log, b) else 0;
    }
  }

  /** Selecting by priority finds the last pushes, the latest first. */
  lemma {:induction false} SelectLatest(pri: seq<u32>, log: seq<Pushed>, slots: set<Slot>)
    requires Masked(pri, log, slots)
    ensures var r := Latest(log, slots); Select(pri, |r|) == Bits(log, r)
    decreases |log|
  {
    if log != [] {
      var bit, rest := log[|log| - 1].bit, log[..|log| - 1];
      if bit in slots {
        MaskedMax(pri, log, slots);
        hide Masked, LastPush;
        MaskedPrefix(pri[bit := 0], log, slots - {bit});
        SelectLatest(pri[bit := 0], rest, slots - {bit});
        var r := Latest(log, slots);
        assert r[..|r| - 1] == Latest(rest, slots - {bit});
        BitsPrefix(log, Latest(rest, slots - {bit}));
      } else {
        hide Masked, LastPush;
        MaskedPrefix(pri, log, slots);
        SelectLatest(pri, rest, slots);
        BitsPrefix(log, Latest(rest, slots));
      }
    }
  }

  lemma BitsPrefix(log: seq<Pushed>, places: seq<nat>)
    requires log != [] && forall k :: 0 <= k < |places| ==> places[k] < |log| - 1
    ensures Bits(log, places) == Bits(log[..|log| - 1], places)
  {
  }

  /** As many last pushes as dirty bits. */
  lemma {:induction false} CountLatest(log: seq<Pushed>, slots: set<Slot>)
    ensures |Latest(log, slots)| == |slots * After(log).dirty|
    decreases |log|
  {
    if log != [] {
      var bit, rest := log[|log| - 1].bit, log[..|log| - 1];
      var dirty := After(rest).dirty;
      if bit in slots {
        CountLatest(rest, slots - {bit});
        assert slots * (dirty + {bit}) == ((slots - {bit}) * dirty) + {bit};
      } else {
        CountLatest(rest, slots);
        assert slots * (dirty + {bit}) == slots * dirty;
      }
    }
  }

  /** A drain after at most 255 pushes sends, for every slot pushed to, exactly the command pushed
      to it last, once, in the order of those last pushes. */
  lemma DrainSends(log: seq<Pushed>)
    requires |log| <= 255
    ensures Drain(After(log)) == (EMPTY, Due(log))
  {
    var q, r := After(log), Latest(log, ALL);
    if log != [] {
      assert log[|log| - 1].bit in q.dirty;
      hide *;
      AfterNumbered(log);
      NumberedMasked(q, log);
      SelectLatest(q.priority, log, ALL);
      DirtyCount(log);
      DrainLatest(q, log, r);
    }
  }

  lemma DirtyCount(log: seq<Pushed>)
    ensures |Latest(log, ALL)| == |After(log).dirty|
  {
    hide *;
    CountLatest(log, ALL);
    AllSlots(After(log).dirty);
  }

  lemma AllSlots(slots: set<Slot>)
    ensures ALL * slots == slots
  {
    forall b | b in slots ensures b in ALL {
    }
  }

  lemma DrainLatest(q: Queue, log: seq<Pushed>, r: seq<nat>)
    requires EightSlots(q) && Numbered(q, log) && q.dirty != {} && r == Latest(log, ALL)
    requires |r| == |q.dirty| && Select(q.priority, |r|) == Bits(log, r)
    ensures Drain(q) == (EMPTY, Due(log))
  {
    LatestExact(log, ALL);
    hide Numbered, Latest, Select, Bits, Commands, Backwards, IsLast;
    forall k | 0 <= k < |r| ensures IsLast(log, r[k]) {
      assert r[k] in r;
    }
    SentInOrder(q, log, r);
  }

  lemma NumberedMasked(q: Queue, log: seq<Pushed>)
    requires EightSlots(q) && Numbered(q, log)
    ensures Masked(q.priority, log, ALL)
  {
    forall b: Slot ensures q.priority[b] == if b in ALL then LastPush(log, b) else 0 {
      assert NumberedAt(q, log, b);
    }
  }

  lemma SentInOrder(q: Queue, log: seq<Pushed>, r: seq<nat>)
    requires EightSlots(q) && Numbered(q, log) && forall k :: 0 <= k < |r| ==> r[k] < |log| && IsLast(log, r[k])
    ensures Backwards(q.cmd, Bits(log, r)) == Commands(log, r)
  {
    forall k | 0 <= k < |r|
      ensures q.cmd[log[r[k]].bit] == log[r[k]].cmd
    {
      var b := log[r[k]].bit;
      assert NumberedAt(q, log, b);
      assert LastPush(log, b) == r[k] + 1;
    }
  }

  // ---- whole runs ---------------------------------------------------------------------------

  datatype Event = PushEvent(p: Pushed) | DrainEvent

  /** What the drains of a run send. */
  function Run(q: Queue, events: seq<Event>): seq<seq<Command>>
    requires EightSlots(q)
    decreases |events|
  {
    if events == [] then []
    else if events[0].PushEvent? then Run(Push(q, events[0].p.bit, events[0].p.cmd), events[1..])
    else [Drain(q).1] + Run(Drain(q).0, events[1..])
  }

  /** What they should send, after the pushes `log` that no drain has taken yet. */
  function DueAll(log: seq<Pushed>, events: seq<Event>): seq<seq<Command>>
    decreases |events|
  {
    if events == [] then []
    else if events[0].PushEvent? then DueAll(log + [events[0].p], events[1..])
    else [Due(log)] + DueAll([], events[1..])
  }

  /** No drain comes after more than 255 pushes, `n` of which have been made already. */
  predicate Paced(n: nat, events: seq<Event>)
    decreases |events|
  {
    n <= 255 && (events == [] || Paced(if events[0].PushEvent? then n + 1 else 0, events[1..]))
  }

  /** Every interleaving of pushes and drains with at most 255 pushes between drains. */
  lemma {:induction false} RunSends(log: seq<Pushed>, events: seq<Event>)
    requires Paced(|log|, events)
    ensures Run(After(log), events) == DueAll(log, events)
    decreases |events|
  {
    hide Drain, Due, Push;
    if events != [] {
      if events[0].PushEvent? {
        var log' := log + [events[0].p];
        assert log'[..|log'| - 1] == log;
        RunSends(log', events[1..]);
      } else {
        DrainSends(log);
        RunSends([], events[1..]);
      }
    }
  }

  // ---- one push too many ---------------------------------------------------------------------

  function Times(p: Pushed, n: nat): (s: seq<Pushed>)
    ensures |s| == n
  {
    if n == 0 then [] else Times(p, n - 1) + [p]
  }

  /** Slot 1 is pushed to 255 times, and then slot 2. */
  function Overrun(n: nat): seq<Pushed>
    requires n >= 255
    ensures |Overrun(n)| == n
    decreases n
  {
    if n == 255 then Times(Pushed(1, "A"), 255) else Overrun(n - 1) + [Pushed(2, "B")]
  }

  lemma {:induction false} TimesAre(p: Pushed, n: nat)
    ensures forall k :: 0 <= k < n ==> Times(p, n)[k] == p
  {
    if n > 0 {
      TimesAre(p, n - 1);
    }
  }

  /** Slot 1 has the last priority before the wrap, the others have none. */
  predicate Full(q: Queue, dirty: set<Slot>)
    requires EightSlots(q)
  {
    q.dirty == dirty && q.cmd[0] == "" && q.cmd[1] == "A" && OnlyOne(q.priority)
  }

  predicate OnlyOne(pri: seq<u32>)
    requires |pri| == SLOTS
  {
    forall b: Slot :: pri[b] == if b == 1 then 255 else 0
  }

  lemma AfterTimes()
    ensures Full(After(Overrun(255)), {1})
  {
    var log := Overrun(255);
    var q := After(log);
    AfterNumbered(log);
    TimesAre(Pushed(1, "A"), 255);
    hide After, Overrun;
    forall b: Slot ensures LastPush(log, b) == if b == 1 then 255 else 0 {
    }
    forall b: Slot
      ensures q.priority[b] == if b == 1 then 255 else 0
      ensures b in q.dirty <==> b == 1
      ensures q.cmd[b] == if b == 1 then "A" else ""
    {
      assert NumberedAt(q, log, b);
    }
  }

  lemma PushFull(q: Queue)
    requires EightSlots(q) && (Full(q, {1}) || Full(q, {1, 2}))
    ensures Full(Push(q, 2, "B"), {1, 2})
  {
    assert q.priority[1] == 255;
    assert q.dirty + {2} == {1, 2};
    assert NextPriority(q.priority) == 0;
  }

  lemma {:induction false} AfterOverrun(n: nat)
    requires n > 255
    ensures Full(After(Overrun(n)), {1, 2})
  {
    var log := Overrun(n);
    assert log[..|log| - 1] == Overrun(n - 1);
    if n == 256 {
      AfterTimes();
    } else {
      AfterOverrun(n - 1);
    }
    PushFull(After(Overrun(n - 1)));
  }

  lemma DrainFull(q: Queue)
    requires EightSlots(q) && Full(q, {1, 2})
    ensures Drain(q).1 == ["", "A"]
  {
    var pri := q.priority;
    assert |q.dirty| == 2 && pri[1] == 255;
    assert ArgMax(pri) == 1;
    var none := pri[1 := 0];
    forall b: Slot ensures none[b] == 0 {
      assert pri[b] == if b == 1 then 255 else 0;
    }
    assert ArgMax(none) == 0 by {
      assert none[ArgMax(none)] == none[0];
    }
    hide ArgMax;
    assert Select(none, 1) == [0];
    assert Select(pri, 2) == [1, 0];
  }

  /** From the 256th push on, a command can be lost: the drain sends an empty command instead. */
  lemma OverrunLost(n: nat)
    requires n > 255
    ensures Drain(After(Overrun(n))).1 == ["", "A"] && Due(Overrun(n)) != ["", "A"]
  {
    AfterOverrun(n);
    DrainFull(After(Overrun(n)));
    DueEndsLast(Overrun(n));
    assert Overrun(n)[n - 1].cmd == "B";
  }

  /** The last push is always due, last. */
  lemma DueEndsLast(log: seq<Pushed>)
    requires log != []
    ensures Due(log) != [] && Due(log)[|Due(log)| - 1] == log[|log| - 1].cmd
  {
    assert log[|log| - 1].bit in ALL;
  }

  /** Every drain after `n` pushes sends what is due exactly when `n` is at most 255. */
  lemma CoalescesIff(n: nat)
    ensures (forall log: seq<Pushed> | |log| == n :: Drain(After(log)).1 == Due(log)) <==> n <= 255
  {
    if n <= 255 {
      forall log: seq<Pushed> | |log| == n ensures Drain(After(log)).1 == Due(log) {
        DrainSends(log);
      }
    } else {
      OverrunLost(n);
    }
  }
}
