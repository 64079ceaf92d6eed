/** The process table and the round-robin schedule (kernel/scheduler.c, kernel/process.c). */
module Scheduling {
  import opened Machine
  import opened Lists

  const MAX_PROCESSES: nat := 32
  const NONE: int := -1

  datatype Status = Unused | Running | Ready | Blocked | Terminated

  datatype Proc = Proc(pid: nat, status: Status, slice: nat, used: nat)

  const EMPTY_SLOT: Proc := Proc(0, Unused, 0, 0)

  /** Processes are named by their slot. `current` is a slot or NONE. */
  datatype Sched = Sched(procs: seq<Proc>, current: int, queue: seq<nat>, nextPid: nat)

  predicate IsSlot(p: int) { 0 <= p < MAX_PROCESSES }

  // ----- The operations -----

  function SetStatus(procs: seq<Proc>, p: int, st: Status): seq<Proc>
  {
    if 0 <= p < |procs| then procs[p := procs[p].(status := st)] else procs
  }

  function Add(s: Sched, p: nat): Sched
  {
    s.(procs := SetStatus(s.procs, p, Ready), queue := s.queue + [p])
  }

  /** The queue without the first occurrence of `p`. */
  function Without(q: seq<nat>, p: nat): seq<nat>
  {
    if q == [] then [] else if q[0] == p then q[1..] else [q[0]] + Without(q[1..], p)
  }

  function Remove(s: Sched, p: nat): Sched { s.(queue := Without(s.queue, p)) }

  predicate IsRunning(s: Sched) { 0 <= s.current < |s.procs| && s.procs[s.current].status == Running }

  /** Switch to the head of the queue, the previous process going to its end if it can still run. */
  function Schedule(s: Sched): Sched
  {
    if s.queue == [] then s
    else
      var next := s.queue[0];
      var dequeued := s.(queue := s.queue[1..]);
      var s1 := if IsRunning(s) then Add(dequeued, s.current) else dequeued;
      var procs :=
        if next < |s1.procs| then s1.procs[next := s1.procs[next].(status := Running, used := 0)] else s1.procs;
      s1.(current := next, procs := procs)
  }

  function Tick(s: Sched): Sched
  {
    if !(0 <= s.current < |s.procs|) then s
    else
      var p := s.procs[s.current];
      var s1 := s.(procs := s.procs[s.current := p.(used := Wrap(p.used + 1))]);
      if Wrap(p.used + 1) >= p.slice then Schedule(s1) else s1
  }

  /** There is a current process other than the kernel. */
  predicate CanExit(s: Sched) { 0 <= s.current < |s.procs| && s.procs[s.current].pid != 0 }

  function Terminate(s: Sched): Sched
  {
    if CanExit(s) then s.(procs := SetStatus(s.procs, s.current, Terminated)) else s
  }

  function Exit(s: Sched): Sched { if CanExit(s) then Schedule(Terminate(s)) else s }

  function SliceFor(priority: int): nat
  {
    if priority == 1 then 50 else if priority == 2 then 100 else 200
  }

  /** The first unused slot from `i` on; MAX_PROCESSES if there is none. */
  function FreeSlot(procs: seq<Proc>, i: nat): (k: nat)
    requires i <= |procs|
    ensures i <= k <= |procs| && (k < |procs| ==> procs[k].status == Unused)
    ensures forall j :: i <= j < k ==> procs[j].status != Unused
    decreases |procs| - i
  {
    if i == |procs| || procs[i].status == Unused then i else FreeSlot(procs, i + 1)
  }

  function PidAfter(pid: nat): nat { if pid + 1 >= MAX_PROCESSES then 1 else pid + 1 }

  /** process_create: the slot is filled, and stays READY, even if building the address space fails. */
  function Create(s: Sched, priority: int): Sched
    requires |s.procs| == MAX_PROCESSES
  {
    var k := FreeSlot(s.procs, 1);
    if k == MAX_PROCESSES then s
    else s.(procs := s.procs[k := Proc(s.nextPid, Ready, SliceFor(priority), 0)], nextPid := PidAfter(s.nextPid))
  }

  function Destroy(s: Sched, p: nat): Sched
    requires p < |s.procs|
  {
    if s.procs[p].pid == 0 then s else s.(procs := s.procs[p := EMPTY_SLOT])
  }

  // ----- The invariant -----

  ghost predicate Inv(s: Sched)
  {
    && |s.procs| == MAX_PROCESSES
    && (s.current == NONE || IsSlot(s.current)) && s.current !in s.queue
    && NoDuplicates(s.queue)
    && (forall p :: p in s.queue ==> IsSlot(p) && s.procs[p].status == Ready)
    && (forall p :: 0 <= p < |s.procs| && s.procs[p].status == Running ==> p == s.current)
    && (forall p :: 0 <= p < |s.procs| ==> s.procs[p].slice <= 200 && s.procs[p].used < WORD)
    && (forall p :: 0 <= p < |s.procs| && s.procs[p].status == Unused ==> s.procs[p].slice == 0)
    && 1 <= s.nextPid < MAX_PROCESSES
  }

  // ----- What the operations do, field by field -----

  /** Every process other than `p` and `q` keeps its record, and the number to be given next stays. */
  ghost predicate OthersKept(s: Sched, s': Sched, p: int, q: int)
  {
    && |s'.procs| == |s.procs| && s'.nextPid == s.nextPid
    && forall k :: 0 <= k < |s.procs| && k != p && k != q ==> s'.procs[k] == s.procs[k]
  }

  /** A switch runs the head of the queue from a fresh slice; a process that was running goes to the end. */
  lemma ScheduleEffect(s: Sched)
    requires Inv(s)
    ensures var s', c := Schedule(s), s.current;
      if s.queue == [] then s' == s
      else
        var next, ran := s.queue[0], c >= 0 && s.procs[c].status == Running;
        && OthersKept(s, s', c, next) && next < |s.procs| && s'.current == next
        && s'.procs[next] == Proc(s.procs[next].pid, Running, s.procs[next].slice, 0)
        && s'.queue == (if ran then s.queue[1..] + [c] else s.queue[1..])
        && (c >= 0 ==> s'.procs[c] == if ran then s.procs[c].(status := Ready) else s.procs[c])
  {
    if s.queue != [] { assert s.queue[0] in s.queue; }
  }

  /** A tick counts modulo 2^32, and switches exactly when the count has reached the slice. */
  lemma TickEffect(s: Sched)
    requires Inv(s)
    ensures var s', c := Tick(s), s.current;
      if c < 0 then s' == s
      else
        var p, u := s.procs[c], (s.procs[c].used + 1) % 0x1_0000_0000;
        if u < p.slice || s.queue == [] then
          OthersKept(s, s', c, c) && s'.current == c && s'.queue == s.queue && s'.procs[c] == p.(used := u)
        else
          var next, ran := s.queue[0], p.status == Running;
          && OthersKept(s, s', c, next) && next < |s.procs| && s'.current == next
          && s'.procs[next] == Proc(s.procs[next].pid, Running, s.procs[next].slice, 0)
          && s'.queue == (if ran then s.queue[1..] + [c] else s.queue[1..])
          && s'.procs[c] == Proc(p.pid, if ran then Ready else p.status, p.slice, u)
  {
    if s.current >= 0 {
      var s1 := s.(procs := s.procs[s.current := s.procs[s.current].(used := Wrap(s.procs[s.current].used + 1))]);
      assert Inv(s1);
      ScheduleEffect(s1);
    }
  }

  /**
   * A process that exits is terminated and not queued: it hands over to the head of the queue, if any, and the
   * rest of the queue stays as it is. The kernel process does not exit.
   */
  lemma ExitEffect(s: Sched)
    requires Inv(s)
    ensures var s', c := Exit(s), s.current;
      if c < 0 || s.procs[c].pid == 0 then s' == s
      else
        && |s'.procs| == |s.procs| && c !in s'.queue
        && s'.procs[c] == Proc(s.procs[c].pid, Terminated, s.procs[c].slice, s.procs[c].used)
        && if s.queue == [] then OthersKept(s, s', c, c) && s'.current == c && s'.queue == []
           else
             var next := s.queue[0];
             && OthersKept(s, s', c, next) && next < |s.procs| && s'.current == next && s'.queue == s.queue[1..]
             && s'.procs[next] == Proc(s.procs[next].pid, Running, s.procs[next].slice, 0)
  {
    if CanExit(s) {
      TerminateInv(s);
      ScheduleEffect(Terminate(s));
    }
  }

  /** A process added is ready and the last of the queue. */
  lemma AddEffect(s: Sched, p: nat)
    requires Inv(s) && p < |s.procs|
    ensures var s' := Add(s, p);
      && OthersKept(s, s', p, p) && s'.current == s.current && s'.queue == s.queue + [p]
      && s'.procs[p] == s.procs[p].(status := Ready)
  {}

  /** A process removed leaves the queue at its place, and nothing else changes. */
  lemma {:induction false} RemoveEffect(s: Sched, p: nat)
    requires Inv(s)
    ensures var s' := Remove(s, p);
      && s'.procs == s.procs && s'.current == s.current && s'.nextPid == s.nextPid && p !in s'.queue
      && (p !in s.queue ==> s'.queue == s.queue)
      && forall i: nat :: i < |s.queue| && s.queue[i] == p ==> s'.queue == s.queue[..i] + s.queue[i + 1..]
  {
    hide Inv, Without;
    InvSlots(s);
    WithoutKeeps(s.queue, p);
    if i: nat :| i < |s.queue| && s.queue[i] == p { CutAt(s.queue, p, i); } else { NothingToCut(s.queue, p); }
  }

  lemma {:induction false} CutAt(q: seq<nat>, p: nat, i: nat)
    requires NoDuplicates(q) && i < |q| && q[i] == p
    ensures Without(q, p) == q[..i] + q[i + 1..]
  {
    if i > 0 {
      assert q[0] != q[i];
      CutAt(q[1..], p, i - 1);
      assert q[..i] + q[i + 1..] == [q[0]] + (q[1..][..i - 1] + q[1..][i..]);
    }
  }

  lemma {:induction false} NothingToCut(q: seq<nat>, p: nat)
    requires p !in q
    ensures Without(q, p) == q
  {
    if q != [] { NothingToCut(q[1..], p); }
  }

  /**
   * A new process takes the lowest unused slot other than the kernel's, with the slice of its priority and a number
   * between 1 and 31; it is ready but not queued. Without an unused slot nothing changes.
   */
  lemma CreateEffect(s: Sched, priority: int)
    requires Inv(s)
    ensures var s', k := Create(s, priority), FreeSlot(s.procs, 1);
      && 1 <= k <= 32 && (forall j :: 1 <= j < k ==> s.procs[j].status != Unused)
      && s'.current == s.current && s'.queue == s.queue && |s'.procs| == 32
      && (forall j :: 0 <= j < 32 && j != k ==> s'.procs[j] == s.procs[j])
      && if k == 32 then s' == s
         else
           && s.procs[k].status == Unused && 1 <= s.nextPid <= 31
           && s'.procs[k] ==
                Proc(s.nextPid, Ready, match priority case 1 => 50 case 2 => 100 case _ => 200, 0)
           && s'.nextPid == (if s.nextPid == 31 then 1 else s.nextPid + 1)
  {}

  /** A destroyed process leaves an unused slot with nothing in it; the kernel process is not destroyed. */
  lemma DestroyEffect(s: Sched, p: nat)
    requires Inv(s) && p < |s.procs|
    ensures var s' := Destroy(s, p);
      && OthersKept(s, s', p, p) && s'.current == s.current && s'.queue == s.queue
      && s'.procs[p] == if s.procs[p].pid == 0 then s.procs[p] else Proc(0, Unused, 0, 0)
  {}

  // ----- The events of a run -----

  datatype Event = TickEvent | AddEvent(p: nat) | RemoveEvent(p: nat) | YieldEvent | ExitEvent
    | CreateEvent(priority: int) | DestroyEvent(p: nat)

  /** Only unqueued, non-current processes are added, and none is destroyed while it is queued. */
  predicate Allowed(s: Sched, e: Event)
  {
    match e
    case AddEvent(p) => p < MAX_PROCESSES && p !in s.queue && p != s.current
    case DestroyEvent(p) => p < MAX_PROCESSES && p !in s.queue
    case _ => true
  }

  function Step(s: Sched, e: Event): Sched
    requires |s.procs| == MAX_PROCESSES && Allowed(s, e)
  {
    match e
    case TickEvent => Tick(s)
    case AddEvent(p) => Add(s, p)
    case RemoveEvent(p) => Remove(s, p)
    case YieldEvent => Schedule(s)
    case ExitEvent => Exit(s)
    case CreateEvent(priority) => Create(s, priority)
    case DestroyEvent(p) => Destroy(s, p)
  }

  lemma {:induction false} WithoutKeeps(q: seq<nat>, p: nat)
    requires NoDuplicates(q)
    ensures NoDuplicates(Without(q, p))
    ensures forall x :: x in Without(q, p) <==> x in q && x != p
  {
    if q != [] {
      assert forall x :: x in q <==> x == q[0] || x in q[1..];
      assert q[0] !in q[1..];
      WithoutKeeps(q[1..], p);
    }
  }

  lemma ScheduleInv(s: Sched)
    requires Inv(s)
    ensures Inv(Schedule(s))
  {
    if s.queue != [] {
      assert forall x :: x in s.queue <==> x == s.queue[0] || x in s.queue[1..];
      var s' := Schedule(s);
      if IsRunning(s) { assert s'.queue == s.queue[1..] + [s.current]; }
    }
  }

  lemma TickInv(s: Sched)
    requires Inv(s)
    ensures Inv(Tick(s))
  {
    hide Schedule;
    if IsSlot(s.current) { ScheduleInv(Charged(s)); }
  }

  /** One tick charged to the current process. */
  function Charged(s: Sched): Sched
    requires 0 <= s.current < |s.procs|
  {
    var p := s.procs[s.current];
    s.(procs := s.procs[s.current := p.(used := Wrap(p.used + 1))])
  }

  lemma TerminateInv(s: Sched)
    requires Inv(s)
    ensures Inv(Terminate(s))
  {}

  lemma ExitInv(s: Sched)
    requires Inv(s)
    ensures Inv(Exit(s))
  {
    hide Schedule;
    TerminateInv(s);
    ScheduleInv(Terminate(s));
  }

  lemma AddInv(s: Sched, p: nat)
    requires Inv(s) && Allowed(s, AddEvent(p))
    ensures Inv(Add(s, p))
  {}

  lemma CreateInv(s: Sched, priority: int)
    requires Inv(s)
    ensures Inv(Create(s, priority))
  {}

  lemma DestroyInv(s: Sched, p: nat)
    requires Inv(s) && Allowed(s, DestroyEvent(p))
    ensures Inv(Destroy(s, p))
  {}

  lemma StepInv(s: Sched, e: Event)
    requires Inv(s) && Allowed(s, e)
    ensures Inv(Step(s, e))
  {
    hide Schedule, Tick, Exit, Create, Destroy;
    match e
    case TickEvent => TickInv(s);
    case AddEvent(p) => AddInv(s, p);
    case RemoveEvent(p) => WithoutKeeps(s.queue, p);
    case YieldEvent => ScheduleInv(s);
    case ExitEvent => ExitInv(s);
    case CreateEvent(priority) => CreateInv(s, priority);
    case DestroyEvent(p) => DestroyInv(s, p);
  }

  // ----- Runs -----

  ghost predicate IsRun(ss: seq<Sched>, es: seq<Event>)
  {
    && |ss| == |es| + 1 && Inv(ss[0])
    && forall i :: 0 <= i < |es| ==> StepAt(ss, es, i)
  }

  ghost predicate StepAt(ss: seq<Sched>, es: seq<Event>, i: nat)
    requires i < |es| && |ss| == |es| + 1
  {
    |ss[i].procs| == MAX_PROCESSES && Allowed(ss[i], es[i]) && ss[i + 1] == Step(ss[i], es[i])
  }

  lemma {:induction false} RunInv(ss: seq<Sched>, es: seq<Event>, i: nat)
    requires IsRun(ss, es) && i < |ss|
    ensures Inv(ss[i])
  {
    if i > 0 {
      RunInv(ss, es, i - 1);
      assert StepAt(ss, es, i - 1);
      StepInv(ss[i - 1], es[i - 1]);
    }
  }

  /**
   * In every reachable state the queue has no duplicates, only ready processes are queued, and at most one
   * process runs: the current one, which is not queued.
   */
  lemma RunSafety(ss: seq<Sched>, es: seq<Event>, i: nat)
    requires IsRun(ss, es) && i < |ss|
    ensures var s := ss[i];
      && NoDuplicates(s.queue) && s.current !in s.queue
      && (forall p :: p in s.queue ==> IsSlot(p) && |s.procs| == MAX_PROCESSES && s.procs[p].status == Ready)
      && forall p :: 0 <= p < |s.procs| && s.procs[p].status == Running ==> p == s.current
  {
    RunInv(ss, es, i);
  }

  // ----- Out of the schedule -----

  /** The process is neither queued nor running. */
  ghost predicate Out(s: Sched, p: nat) { p !in s.queue && p < |s.procs| && s.procs[p].status != Running }

  /** Only adding a process brings it back. */
  lemma StaysOut(s: Sched, e: Event, p: nat)
    requires Inv(s) && Allowed(s, e) && Out(s, p) && e != AddEvent(p)
    ensures Out(Step(s, e), p) && (s.current != p ==> Step(s, e).current != p)
  {
    hide Schedule, Tick, Exit, Create, Destroy, Inv;
    InvSlots(s);
    match e
    case TickEvent => TickEffect(s);
    case AddEvent(q) =>
    case RemoveEvent(q) => WithoutKeeps(s.queue, q);
    case YieldEvent => ScheduleEffect(s);
    case ExitEvent => ExitEffect(s);
    case CreateEvent(priority) => CreateEffect(s, priority);
    case DestroyEvent(q) => DestroyEffect(s, q);
  }

  lemma InvSlots(s: Sched)
    requires Inv(s)
    ensures |s.procs| == MAX_PROCESSES && NoDuplicates(s.queue) && -1 <= s.current < MAX_PROCESSES
    ensures forall x :: x in s.queue ==> x < MAX_PROCESSES && x != s.current
  {}

  /**
   * A process that has exited neither runs nor waits in the queue again before it is added, and if there was a
   * process to hand over to, it does not become the current one either.
   */
  lemma {:induction false} ExitedStaysOut(ss: seq<Sched>, es: seq<Event>, i: nat, j: nat, p: nat)
    requires IsRun(ss, es) && i < j < |ss| && es[i] == ExitEvent
    requires ss[i].current == p && p < |ss[i].procs| && ss[i].procs[p].pid != 0
    requires forall k :: i < k < j ==> es[k] != AddEvent(p)
    ensures p !in ss[j].queue && p < |ss[j].procs| && ss[j].procs[p].status != Running
    ensures ss[i].queue != [] ==> ss[j].current != p
  {
    hide Inv;
    RunInv(ss, es, j - 1);
    assert StepAt(ss, es, j - 1);
    InvSlots(ss[j - 1]);
    if j == i + 1 {
      assert ss[j] == Exit(ss[i]);
      if ss[i].queue != [] { assert ss[i].queue[0] in ss[i].queue; }
      ExitEffect(ss[i]);
    } else {
      ExitedStaysOut(ss, es, i, j - 1, p);
      StaysOut(ss[j - 1], es[j - 1], p);
    }
  }

  // ----- Rotation -----

  /** The processes in the order in which they will run. */
  function Ring(s: Sched): seq<int> { [s.current] + s.queue }

  function Yields(s: Sched, n: nat): Sched
    decreases n
  {
    if n == 0 then s else Yields(Schedule(s), n - 1)
  }

  function Rotate<T>(xs: seq<T>, n: nat): seq<T>
    requires n <= |xs|
  {
    xs[n..] + xs[..n]
  }

  /** A switch away from a running process rotates the ring and loses nobody. */
  lemma SwitchRotates(s: Sched)
    requires Inv(s) && IsRunning(s)
    ensures IsRunning(Schedule(s)) && Inv(Schedule(s))
    ensures Ring(Schedule(s)) == if s.queue == [] then Ring(s) else Rotate(Ring(s), 1)
  {
    ScheduleInv(s);
    if s.queue != [] {
      assert s.queue[0] in s.queue;
      assert Ring(s)[1..] == s.queue && Ring(s)[..1] == [s.current];
    }
  }

  lemma {:induction false} YieldsRotate(s: Sched, n: nat)
    requires Inv(s) && IsRunning(s) && s.queue != [] && n <= |Ring(s)|
    ensures Inv(Yields(s, n)) && Ring(Yields(s, n)) == Rotate(Ring(s), n)
    decreases n
  {
    hide Inv, Schedule, Ring;
    if n == 0 {
      assert Rotate(Ring(s), 0) == Ring(s);
    } else {
      SwitchRotates(s);
      RingHasQueue(s);
      RingHasQueue(Schedule(s));
      YieldsRotate(Schedule(s), n - 1);
      RotateOnce(Ring(s), n);
    }
  }

  lemma RingHasQueue(s: Sched)
    ensures |Ring(s)| == |s.queue| + 1
  {}

  lemma RotateOnce<T>(xs: seq<T>, n: nat)
    requires 1 <= n <= |xs|
    ensures Rotate(Rotate(xs, 1), n - 1) == Rotate(xs, n)
  {
    var r := Rotate(xs, 1);
    assert r[..n - 1] == xs[1..n] && r[n - 1..] == xs[n..] + xs[..1];
    assert xs[..n] == xs[..1] + xs[1..n];
  }

  /** With n processes queued, n + 1 switches bring back the original order. */
  lemma FullRound(s: Sched)
    requires Inv(s) && IsRunning(s)
    ensures Ring(Yields(s, |s.queue| + 1)) == Ring(s)
  {
    if s.queue == [] {
      assert Yields(s, 1) == Yields(Schedule(s), 0);
    } else {
      YieldsRotate(s, |s.queue| + 1);
      assert Rotate(Ring(s), |Ring(s)|) == Ring(s);
    }
  }

  // ----- Waiting -----

  /** The ticks a process uses up once it is switched to. */
  function Span(slice: nat): nat { if slice <= 1 then 1 else slice }

  /** The ticks until the current process is preempted; the 32-bit counter may be about to wrap. */
  function Rest(p: Proc): nat
  {
    if p.used == UINT_MAX && p.slice > 0 then 1 + Span(p.slice)
    else if p.used + 1 >= p.slice then 1
    else p.slice - p.used
  }

  function SpanOf(procs: seq<Proc>, p: nat): nat { if p < |procs| then Span(procs[p].slice) else 1 }

  function Spans(procs: seq<Proc>, q: seq<nat>): nat
  {
    if q == [] then 0 else SpanOf(procs, q[0]) + Spans(procs, q[1..])
  }

  /** The number of ticks until the process at queue position `k` is switched to, if nothing else happens. */
  function Wait(s: Sched, k: nat): nat
  {
    (if 0 <= s.current < |s.procs| then Rest(s.procs[s.current]) else 0)
    + if k <= |s.queue| then Spans(s.procs, s.queue[..k]) else 0
  }

  predicate SameSlices(procs: seq<Proc>, procs': seq<Proc>, q: seq<nat>)
  {
    |procs| == |procs'| && forall p :: p in q && p < |procs| ==> procs'[p].slice == procs[p].slice
  }

  lemma {:induction false} SpansSame(procs: seq<Proc>, procs': seq<Proc>, q: seq<nat>)
    requires SameSlices(procs, procs', q)
    ensures Spans(procs', q) == Spans(procs, q)
  {
    if q != [] {
      assert q[0] in q;
      SpansSame(procs, procs', q[1..]);
    }
  }

  /** After a switch the rest of the queue waits for the new process and those in between. */
  lemma SwitchWait(s: Sched, k: nat)
    requires Inv(s) && k < |s.queue|
    ensures Schedule(s).current == s.queue[0]
    ensures k > 0 ==> k - 1 < |Schedule(s).queue| && Schedule(s).queue[k - 1] == s.queue[k]
    ensures k > 0 ==> Wait(Schedule(s), k - 1) == Spans(s.procs, s.queue[..k])
  {
    if k > 0 {
      var s', next := Schedule(s), s.queue[0];
      assert next in s.queue;
      assert s'.queue[..k - 1] == s.queue[1..][..k - 1] == s.queue[..k][1..];
      SpansSame(s.procs, s'.procs, s.queue[..k][1..]);
    }
  }

  /** A tick brings every queued process exactly one tick nearer. */
  lemma TickWait(s: Sched, k: nat)
    requires Inv(s) && s.current != NONE && k < |s.queue|
    ensures Inv(Tick(s)) && Wait(s, k) >= 1 && Tick(s).current != NONE
    ensures if Wait(s, k) == 1 then k == 0 && Tick(s).current == s.queue[k]
      else
        var k' := if Rest(s.procs[s.current]) == 1 then k - 1 else k;
        && 0 <= k' < |Tick(s).queue| && Tick(s).queue[k'] == s.queue[k] && Wait(Tick(s), k') == Wait(s, k) - 1
        && Tick(s).current != s.queue[k]
  {
    hide Schedule;
    TickInv(s);
    var s1 := Charged(s);
    assert Inv(s1);
    SpansSame(s.procs, s1.procs, s.queue[..k]);
    if Rest(s.procs[s.current]) == 1 {
      SwitchWait(s1, k);
      if k > 0 { SpansPositive(s.procs, s.queue[..k]); }
    }
  }

  lemma SpansPositive(procs: seq<Proc>, q: seq<nat>)
    requires q != []
    ensures Spans(procs, q) >= 1
  {}

  function Ticks(s: Sched, n: nat): Sched
    decreases n
  {
    if n == 0 then s else Ticks(Tick(s), n - 1)
  }

  /**
   * If nothing but ticks happens, the process at queue position `k` becomes current after exactly
   * `Wait(s, k)` of them, and not before.
   */
  lemma {:induction false} ExactWait(s: Sched, k: nat)
    requires Inv(s) && s.current != NONE && k < |s.queue|
    ensures Ticks(s, Wait(s, k)).current == s.queue[k]
    ensures forall n: nat :: n < Wait(s, k) ==> Ticks(s, n).current != s.queue[k]
    decreases Wait(s, k)
  {
    hide Inv, Tick, Wait, Rest;
    QueuedIsNotCurrent(s, k);
    TickWait(s, k);
    var p, w := s.queue[k], Wait(s, k);
    assert Ticks(s, w) == Ticks(Tick(s), w - 1);
    if w > 1 {
      var k' := if Rest(s.procs[s.current]) == 1 then k - 1 else k;
      ExactWait(Tick(s), k');
      forall n: nat | n < w
        ensures Ticks(s, n).current != p
      {
        if n > 0 { assert Ticks(s, n) == Ticks(Tick(s), n - 1); }
      }
    }
  }

  lemma QueuedIsNotCurrent(s: Sched, k: nat)
    requires Inv(s) && k < |s.queue|
    ensures s.current != s.queue[k]
    ensures s.current != NONE ==> 0 <= s.current < |s.procs|
  {
    assert s.queue[k] in s.queue;
  }

  /** `Rest` is what is left of the slice, and one tick at least, unless the 32-bit count is about to wrap. */
  lemma RestOfSlice(p: Proc)
    requires p.used < WORD && p.slice <= 200
    ensures Rest(p) == (if p.slice - p.used >= 1 then p.slice - p.used else 1) <==> p.used != UINT_MAX || p.slice == 0
  {}

  /** With an empty queue nobody is switched to, and the count of a running process just goes on. */
  lemma {:induction false} CountGoesOn(s: Sched, n: nat)
    requires Inv(s) && IsRunning(s) && s.queue == [] && s.procs[s.current].used + n < WORD
    ensures var p := s.procs[s.current];
      Ticks(s, n) == s.(procs := s.procs[s.current := p.(used := p.used + n)])
    decreases n
  {
    hide Inv;
    if n > 0 {
      TickInv(s);
      CountGoesOn(Tick(s), n - 1);
    } else {
      assert s.procs[s.current := s.procs[s.current]] == s.procs;
    }
  }

  /**
   * So a process alone reaches the wrap: 2^32 - 1 ticks after it was switched to, a process that is added waits
   * a slice longer than for the one tick that is due.
   */
  lemma CounterWraps(s: Sched, p: nat)
    requires Inv(s) && IsRunning(s) && s.queue == [] && s.procs[s.current].used == 0 && s.procs[s.current].slice > 0
    requires Allowed(s, AddEvent(p))
    ensures var s' := Add(Ticks(s, UINT_MAX), p);
      && s'.queue == [p] && |s'.procs| == MAX_PROCESSES && s'.procs[s.current].used == UINT_MAX
      && Wait(s', 0) == 1 + s.procs[s.current].slice
  {
    hide Ticks;
    CountGoesOn(s, UINT_MAX);
  }

  /** The kernel after boot, alone, with a slice of 100. */
  function Booted(): Sched
  {
    Sched(seq(MAX_PROCESSES, _ => EMPTY_SLOT)[0 := Proc(0, Running, 100, 0)], 0, [], 1)
  }

  /** It is enough that the kernel runs alone for 2^32 - 1 ticks: a process added then waits 101 instead of 1. */
  lemma BootedCounterWraps(p: nat)
    requires 0 < p < MAX_PROCESSES
    ensures Inv(Booted()) && Wait(Add(Ticks(Booted(), UINT_MAX), p), 0) == 101
  {
    hide Ticks, Wait;
    CounterWraps(Booted(), p);
  }

  /** The 32-bit count of the current process is about to wrap and its slice is the longest. */
  predicate AboutToWrap(s: Sched)
  {
    0 <= s.current < |s.procs| && s.procs[s.current].used == UINT_MAX && s.procs[s.current].slice == 200
  }

  /**
   * Nobody at position `k` waits longer than 200 ticks per process ahead and one slice more, unless a counter is
   * about to wrap and all the slices are the longest; then it is one tick more.
   */
  lemma WaitBound(s: Sched, k: nat)
    requires Inv(s) && s.current != NONE && k < |s.queue|
    ensures Wait(s, k) <= 200 * (k + 1) + (if AboutToWrap(s) then 1 else 0)
    ensures Wait(s, k) > 200 * (k + 1) <==> AboutToWrap(s) && AllLongest(s.procs, s.queue[..k])
  {
    SpansBound(s.procs, s.queue[..k]);
  }

  predicate AllLongest(procs: seq<Proc>, q: seq<nat>) { forall p :: p in q ==> SpanOf(procs, p) == 200 }

  /**
   * The bound is exceeded: the kernel gives way to a process of low priority and is taken from the queue, that
   * process runs alone for 2^32 - 1 ticks, and the kernel, added again, waits 201.
   */
  lemma BoundExceeded()
    ensures var s := Remove(Schedule(Add(Create(Booted(), 3), 1)), 0);
      Inv(s) && Allowed(s, AddEvent(0)) && Wait(Add(Ticks(s, UINT_MAX), 0), 0) == 201
  {
    hide Ticks, Wait;
    var s1 := Create(Booted(), 3);
    assert FreeSlot(Booted().procs, 1) == 1;
    var s2 := Schedule(Add(s1, 1));
    assert s2.current == 1 && s2.queue == [0];
    var s := Remove(s2, 0);
    CounterWraps(s, 0);
  }

  lemma {:induction false} SpansBound(procs: seq<Proc>, q: seq<nat>)
    requires forall p :: 0 <= p < |procs| ==> procs[p].slice <= 200
    ensures Spans(procs, q) <= 200 * |q| && (Spans(procs, q) == 200 * |q| <==> AllLongest(procs, q))
  {
    if q != [] {
      assert forall p :: p in q <==> p == q[0] || p in q[1..];
      SpansBound(procs, q[1..]);
    }
  }

  // ----- Waiting while other things happen -----

  /** Process `p` is queued at most `w` ticks from being switched to. */
  ghost predicate WaitsAtMost(s: Sched, p: nat, w: int)
  {
    exists k: nat :: k < |s.queue| && s.queue[k] == p && Wait(s, k) <= w
  }

  /**
   * The ticks by which an event sets everybody back: a new process in the slot of a destroyed current process
   * counts as the current one, and its slice has to run out first.
   */
  function Delay(s: Sched, e: Event): nat
    requires |s.procs| == MAX_PROCESSES
  {
    if e.CreateEvent? && FreeSlot(s.procs, 1) == s.current then SliceFor(e.priority) - 1 else 0
  }

  lemma {:induction false} WithoutPosition(procs: seq<Proc>, q: seq<nat>, p: nat, k: nat) returns (k': nat)
    requires k < |q| && q[k] != p
    ensures k' < |Without(q, p)| && Without(q, p)[k'] == q[k]
    ensures Spans(procs, Without(q, p)[..k']) <= Spans(procs, q[..k])
  {
    if q[0] == p {
      k' := k - 1;
      assert q[1..][..k - 1] == q[..k][1..];
    } else if k == 0 {
      k' := 0;
    } else {
      var j := WithoutPosition(procs, q[1..], p, k - 1);
      k' := j + 1;
      assert Without(q, p)[..j + 1][1..] == Without(q[1..], p)[..j];
      assert q[..k][1..] == q[1..][..k - 1];
    }
  }

  /** The wait at a position depends on the current process and on the slices ahead only. */
  lemma WaitFrame(s: Sched, s': Sched, k: nat)
    requires k < |s.queue| && k < |s'.queue| && s'.queue[..k] == s.queue[..k] && s'.current == s.current
    requires SameSlices(s.procs, s'.procs, s.queue[..k]) && 0 <= s.current < |s.procs|
    requires Rest(s'.procs[s.current]) <= Rest(s.procs[s.current])
    ensures Wait(s', k) <= Wait(s, k)
  {
    SpansSame(s.procs, s'.procs, s.queue[..k]);
  }

  lemma SwitchNearer(s: Sched, k: nat, w: int)
    requires Inv(s) && s.current != NONE && k < |s.queue| && Wait(s, k) <= w
    ensures Schedule(s).current != NONE
    ensures Schedule(s).current == s.queue[k] || WaitsAtMost(Schedule(s), s.queue[k], w)
  {
    hide Schedule, Inv;
    SwitchWait(s, k);
  }

  lemma ExitNearer(s: Sched, k: nat, w: int)
    requires Inv(s) && s.current != NONE && k < |s.queue| && Wait(s, k) <= w
    ensures Exit(s).current != NONE
    ensures Exit(s).current == s.queue[k] || WaitsAtMost(Exit(s), s.queue[k], w)
  {
    hide Schedule;
    if CanExit(s) {
      TerminateInv(s);
      WaitFrame(s, Terminate(s), k);
      SwitchNearer(Terminate(s), k, w);
    }
  }

  lemma TickNearer(s: Sched, k: nat, w: int)
    requires Inv(s) && s.current != NONE && k < |s.queue| && Wait(s, k) <= w
    ensures Tick(s).current != NONE
    ensures Tick(s).current == s.queue[k] || WaitsAtMost(Tick(s), s.queue[k], w - 1)
  {
    hide Tick, Inv, Wait, Rest;
    QueuedIsNotCurrent(s, k);
    TickWait(s, k);
    if Wait(s, k) > 1 {
      var k' := if Rest(s.procs[s.current]) == 1 then k - 1 else k;
      assert Wait(Tick(s), k') <= w - 1;
    }
  }

  lemma CreateNearer(s: Sched, priority: int, k: nat)
    requires Inv(s) && s.current != NONE && k < |s.queue|
    ensures Wait(Create(s, priority), k) <= Wait(s, k) + Delay(s, CreateEvent(priority))
    ensures FreeSlot(s.procs, 1) != s.current ==> Wait(Create(s, priority), k) == Wait(s, k)
    ensures FreeSlot(s.procs, 1) == s.current ==>
      Wait(Create(s, priority), k) == Wait(s, k) + Delay(s, CreateEvent(priority))
  {
    var s' := Create(s, priority);
    SpansSame(s.procs, s'.procs, s.queue[..k]);
  }

  /**
   * Whatever happens other than its own removal, a waiting process is not set back by more than the new slice
   * of a reused current slot, and a tick brings it nearer.
   */
  lemma EventNearer(s: Sched, e: Event, p: nat, w: int)
    requires Inv(s) && s.current != NONE && WaitsAtMost(s, p, w) && Allowed(s, e) && e != RemoveEvent(p)
    ensures Step(s, e).current != NONE
    ensures Step(s, e).current == p || WaitsAtMost(Step(s, e), p, (if e.TickEvent? then w - 1 else w) + Delay(s, e))
  {
    hide Schedule, Tick, Exit, Wait, Rest;
    var k: nat :| k < |s.queue| && s.queue[k] == p && Wait(s, k) <= w;
    match e
    case TickEvent => TickNearer(s, k, w);
    case YieldEvent => SwitchNearer(s, k, w);
    case ExitEvent => ExitNearer(s, k, w);
    case AddEvent(x) => WaitFrame(s, Add(s, x), k);
    case RemoveEvent(x) => RemoveNearer(s, x, k);
    case CreateEvent(priority) => CreateNearer(s, priority, k);
    case DestroyEvent(x) => DestroyNearer(s, x, k);
  }

  lemma RemoveNearer(s: Sched, x: nat, k: nat)
    requires k < |s.queue| && s.queue[k] != x
    ensures WaitsAtMost(Remove(s, x), s.queue[k], Wait(s, k))
  {
    var k' := WithoutPosition(s.procs, s.queue, x, k);
    assert Wait(Remove(s, x), k') <= Wait(s, k);
  }

  lemma DestroyNearer(s: Sched, x: nat, k: nat)
    requires Inv(s) && s.current != NONE && k < |s.queue| && Allowed(s, DestroyEvent(x))
    ensures Wait(Destroy(s, x), k) <= Wait(s, k)
  {
    WaitFrame(s, Destroy(s, x), k);
  }

  function TickCount(es: seq<Event>): nat
  {
    if es == [] then 0 else TickCount(es[..|es| - 1]) + if es[|es| - 1].TickEvent? then 1 else 0
  }

  /** By how much the first `i` events of a run set everybody back; 0 unless a current slot is reused. */
  ghost function DelayCount(ss: seq<Sched>, es: seq<Event>, i: nat): nat
    requires IsRun(ss, es) && i <= |es|
  {
    if i == 0 then 0
    else
      assert StepAt(ss, es, i - 1);
      DelayCount(ss, es, i - 1) + Delay(ss[i - 1], es[i - 1])
  }

  lemma {:induction false} StillWaiting(ss: seq<Sched>, es: seq<Event>, p: nat, w: int, i: nat)
    requires IsRun(ss, es) && RemoveEvent(p) !in es && i < |ss|
    requires ss[0].current != NONE && WaitsAtMost(ss[0], p, w)
    requires forall j :: 0 <= j < |ss| ==> ss[j].current != p
    ensures ss[i].current != NONE && WaitsAtMost(ss[i], p, w + DelayCount(ss, es, i) - TickCount(es[..i]))
  {
    hide Inv, Allowed, WaitsAtMost, Step, Delay;
    if i > 0 {
      StillWaiting(ss, es, p, w, i - 1);
      RunInv(ss, es, i - 1);
      assert StepAt(ss, es, i - 1);
      EventNearer(ss[i - 1], es[i - 1], p, w + DelayCount(ss, es, i - 1) - TickCount(es[..i - 1]));
      assert es[..i][..i - 1] == es[..i - 1];
    }
  }

  /**
   * Bounded waiting over whole runs: once as many ticks have come as the process had to wait for, it has been
   * switched to, whatever additions, removals of others, yields, exits, creations and destructions came in
   * between. Only a new process in the slot of a destroyed current one adds to the wait.
   */
  lemma BoundedWaiting(ss: seq<Sched>, es: seq<Event>, k: nat)
    requires IsRun(ss, es) && ss[0].current != NONE && k < |ss[0].queue|
    requires RemoveEvent(ss[0].queue[k]) !in es
    requires TickCount(es) >= Wait(ss[0], k) + DelayCount(ss, es, |es|)
    ensures exists i :: 0 <= i < |ss| && ss[i].current == ss[0].queue[k]
  {
    hide Inv, Wait, DelayCount;
    var p, w := ss[0].queue[k], Wait(ss[0], k);
    if forall j :: 0 <= j < |ss| ==> ss[j].current != p {
      StillWaiting(ss, es, p, w, |es|);
      assert es[..|es|] == es;
      RunInv(ss, es, |es|);
      var last := ss[|es|];
      var j: nat :| j < |last.queue| && last.queue[j] == p
        && Wait(last, j) <= w + DelayCount(ss, es, |es|) - TickCount(es);
      QueuedIsNotCurrent(last, j);
      WaitPositive(last, j);
    }
  }

  lemma WaitPositive(s: Sched, k: nat)
    requires 0 <= s.current < |s.procs|
    ensures Wait(s, k) >= 1
  {}
}
