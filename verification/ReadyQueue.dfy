/** The scheduler as the kernel keeps it: one table of processes, the ready queue linked through it. */
module ReadyQueue {
  import opened Lists
  import opened Machine
  import opened Scheduling

  /** A process control block; `next` is the slot behind it in the ready queue, or NONE. */
  datatype Pcb = Pcb(proc: Proc, next: int)

  function Procs(t: seq<Pcb>): (procs: seq<Proc>)
    ensures |procs| == |t| && forall i :: 0 <= i < |t| ==> procs[i] == t[i].proc
  {
    seq(|t|, i requires 0 <= i < |t| => t[i].proc)
  }

  function EndsOf(q: seq<nat>): (int, int)
  {
    if q == [] then (NONE, NONE) else (q[0], q[|q| - 1])
  }

  /** Following `next` from slot q[0] visits exactly the slots of `q`, in order, and then ends. */
  ghost predicate Chained(t: seq<Pcb>, q: seq<nat>)
  {
    && NoDuplicates(q) && (forall i :: 0 <= i < |q| ==> q[i] < |t|)
    && (forall i, j :: 0 <= i && j == i + 1 < |q| ==> t[q[i]].next == q[j])
    && (q != [] ==> t[q[|q| - 1]].next == NONE)
  }

  lemma Appended(t: seq<Pcb>, q: seq<nat>, p: nat, t': seq<Pcb>)
    requires Chained(t, q) && p < |t| && p !in q && |t'| == |t| && t'[p].next == NONE
    requires forall i :: 0 <= i < |t| && i != p && (q == [] || i != q[|q| - 1]) ==> t'[i] == t[i]
    requires q != [] ==> t'[q[|q| - 1]].next == p
    ensures Chained(t', q + [p])
  {}

  lemma HeadCut(t: seq<Pcb>, q: seq<nat>, t': seq<Pcb>)
    requires Chained(t, q) && q != [] && |t'| == |t|
    requires forall i :: 0 <= i < |t| && i != q[0] ==> t'[i] == t[i]
    ensures Chained(t', q[1..])
    ensures t[q[0]].next == EndsOf(q[1..]).0 && (q[1..] != [] ==> EndsOf(q[1..]).1 == EndsOf(q).1)
  {}

  lemma Unlinked(t: seq<Pcb>, q: seq<nat>, k: nat, t': seq<Pcb>)
    requires Chained(t, q) && k < |q| && |t'| == |t|
    requires forall i :: 0 <= i < |t| && i != q[k] && (k == 0 || i != q[k - 1]) ==> t'[i] == t[i]
    requires k > 0 ==> t'[q[k - 1]].next == t[q[k]].next
    ensures Chained(t', q[..k] + q[k + 1..])
  {
    var r := q[..k] + q[k + 1..];
    forall i, j | 0 <= i && j == i + 1 < |r|
      ensures t'[r[i]].next == r[j]
    {
      if i >= k { assert r[i] == q[i + 1] && r[j] == q[j + 1]; }
    }
  }

  lemma ChainedBounds(t: seq<Pcb>, q: seq<nat>, k: nat)
    requires Chained(t, q) && k < |q|
    ensures q[k] < |t| && t[q[k]].next == (if k + 1 < |q| then q[k + 1] else NONE)
    ensures k > 0 ==> q[k - 1] < |t| && q[k - 1] != q[k]
    ensures EndsOf(q) == (q[0], q[|q| - 1]) && (q[k] == EndsOf(q).1 <==> k + 1 == |q|)
  {}

  /** Cutting a process out keeps the list whole and costs no process anything else. */
  lemma UnlinkedProcess(t: seq<Pcb>, q: seq<nat>, k: nat, t': seq<Pcb>)
    requires Chained(t, q) && k < |q| && q[k] < |t| == |t'|
    requires k > 0 ==> q[k - 1] < |t| && q[k - 1] != q[k]
    requires var t1 := if k == 0 then t else t[q[k - 1] := t[q[k - 1]].(next := t[q[k]].next)];
      t' == t1[q[k] := t[q[k]].(next := NONE)]
    ensures Chained(t', Without(q, q[k])) && Procs(t') == Procs(t) && |Without(q, q[k])| == |q| - 1
    ensures EndsOf(Without(q, q[k])) ==
      (if k == 0 then t[q[0]].next else q[0],
       if k + 1 < |q| then q[|q| - 1] else if k == 0 then NONE else q[k - 1])
  {
    hide Chained, Without, EndsOf;
    ChainedBounds(t, q, k);
    ChainIsDistinct(t, q);
    Unlinked(t, q, k, t');
    CutAt(q, q[k], k);
    EndsWithout(q, k);
  }

  lemma ChainIsDistinct(t: seq<Pcb>, q: seq<nat>)
    requires Chained(t, q)
    ensures NoDuplicates(q)
  {}

  lemma EndsWithout(q: seq<nat>, k: nat)
    requires k < |q|
    ensures EndsOf(q[..k] + q[k + 1..]) ==
      (if k > 0 then q[0] else if |q| > 1 then q[1] else NONE,
       if k + 1 < |q| then q[|q| - 1] else if k == 0 then NONE else q[k - 1])
  {}

  lemma ProcWritten(t: seq<Pcb>, q: seq<nat>, i: nat, p: Proc)
    requires Chained(t, q) && i < |t|
    ensures Procs(t[i := t[i].(proc := p)]) == Procs(t)[i := p] && Chained(t[i := t[i].(proc := p)], q)
  {}

  lemma SwitchBounds(s: Sched)
    requires Inv(s)
    ensures |s.procs| == MAX_PROCESSES && (s.current == NONE || IsSlot(s.current)) && s.current !in s.queue
    ensures s.queue != [] ==> IsSlot(s.queue[0]) && s.queue[0] != s.current && s.current !in s.queue[1..]
  {
    if s.queue != [] { assert s.queue[0] in s.queue; }
  }

  class Kernel {
    const table: array<Pcb>
    var current: int
    var nextPid: nat
    var head: int
    var tail: int
    var count: nat
    var enabled: bool
    ghost var queue: seq<nat>

    /** The links describe one acyclic list without duplicates: `queue`. */
    ghost predicate Linked()
      reads this, table
    {
      && table.Length == MAX_PROCESSES && Chained(table[..], queue)
      && (head, tail) == EndsOf(queue) && count == |queue|
    }

    ghost function Snapshot(): Sched
      reads this, table
    {
      Sched(Procs(table[..]), current, queue, nextPid)
    }

    ghost predicate Valid()
      reads this, table
    {
      Linked() && Inv(Snapshot())
    }

    constructor ()
      ensures Valid() && fresh(table) && !enabled
      ensures Snapshot() == Sched(seq(MAX_PROCESSES, _ => EMPTY_SLOT), NONE, [], 1)
    {
      table := new Pcb[MAX_PROCESSES](_ => Pcb(EMPTY_SLOT, NONE));
      current, nextPid, enabled := NONE, 1, false;
      head, tail, count, queue := NONE, NONE, 0, [];
    }

    /** process_init */
    method InitProcesses()
      requires Valid() && queue == []
      modifies this, table
      ensures Valid() && queue == [] && enabled == old(enabled)
      ensures Snapshot() == Booted().(nextPid := old(nextPid))
      ensures current == 0 && table[0].proc == Proc(0, Running, 100, 0)
      ensures forall i :: 1 <= i < 32 ==> table[i].proc == Proc(0, Unused, 0, 0)
    {
      var i := 0;
      while i < table.Length
        invariant i <= table.Length && Linked() && queue == [] && nextPid == old(nextPid) && enabled == old(enabled)
        invariant forall j :: 0 <= j < i ==> table[j] == Pcb(EMPTY_SLOT, NONE)
        modifies table
      {
        table[i] := Pcb(EMPTY_SLOT, NONE);
        i := i + 1;
      }
      table[0] := Pcb(Proc(0, Running, 100, 0), NONE);
      current := 0;
    }

    /** scheduler_init */
    method InitScheduler()
      requires Valid()
      modifies this
      ensures Valid() && enabled && Snapshot() == old(Snapshot()).(queue := [])
    {
      head, tail, count, queue := NONE, NONE, 0, [];
      enabled := true;
    }

    method AddProcess(p: int)
      requires Linked() && (p == NONE || (IsSlot(p) && p !in queue))
      modifies this, table
      ensures Linked() && Snapshot() == if p == NONE || !enabled then old(Snapshot()) else Add(old(Snapshot()), p)
      ensures enabled == old(enabled)
    {
      if p == NONE || !enabled {
        return;
      }
      ghost var t := table[..];
      table[p] := table[p].(proc := table[p].proc.(status := Ready), next := NONE);
      if tail != NONE {
        table[tail] := table[tail].(next := p);
        tail := p;
      } else {
        head, tail := p, p;
      }
      count := count + 1;
      Appended(t, queue, p, table[..]);
      queue := queue + [p];
      assert Procs(table[..]) == SetStatus(Procs(t), p, Ready);
    }

    /** Cut the process under the cursor out of the list. */
    method Unlink(cursor: int, previous: int, ghost k: nat)
      requires Linked() && k < |queue| && cursor == queue[k]
      requires previous == if k == 0 then NONE else queue[k - 1]
      modifies this, table
      ensures Linked() && enabled == old(enabled) && Snapshot() == Remove(old(Snapshot()), old(queue[k]))
    {
      hide Chained, Without, Procs, EndsOf;
      ghost var t, q := table[..], queue;
      ChainedBounds(t, q, k);
      if k > 0 { ChainedBounds(t, q, k - 1); }
      if previous != NONE {
        table[previous] := table[previous].(next := table[cursor].next);
      } else {
        head := table[cursor].next;
      }
      if cursor == tail {
        tail := previous;
      }
      count := count - 1;
      table[cursor] := table[cursor].(next := NONE);
      UnlinkedProcess(t, q, k, table[..]);
      queue := Without(q, q[k]);
    }

    method RemoveProcess(p: int)
      requires Linked() && (p == NONE || IsSlot(p))
      modifies this, table
      ensures Linked() && enabled == old(enabled)
      ensures Snapshot() == if p == NONE || !enabled then old(Snapshot()) else Remove(old(Snapshot()), p)
    {
      if p == NONE || !enabled || count == 0 {
        return;
      }
      var cursor, previous := head, NONE;
      ghost var k := 0;
      while cursor != NONE
        invariant k <= |queue| && cursor == (if k < |queue| then queue[k] else NONE)
        invariant previous == if k == 0 then NONE else queue[k - 1]
        invariant forall j :: 0 <= j < k ==> queue[j] != p
        decreases |queue| - k
      {
        if cursor == p {
          Unlink(cursor, previous, k);
          return;
        }
        previous := cursor;
        cursor := table[cursor].next;
        k := k + 1;
      }
      NothingToCut(queue, p);
    }

    method GetNextProcess() returns (p: int)
      requires Linked()
      modifies this, table
      ensures Linked() && enabled == old(enabled)
      ensures if old(queue) == [] then p == NONE && Snapshot() == old(Snapshot())
        else p == old(queue)[0] && Snapshot() == old(Snapshot()).(queue := old(queue)[1..])
    {
      if count == 0 {
        return NONE;
      }
      ghost var t := table[..];
      p := head;
      head := table[p].next;
      if head == NONE {
        tail := NONE;
      }
      count := count - 1;
      table[p] := table[p].(next := NONE);
      HeadCut(t, queue, table[..]);
      queue := queue[1..];
      assert Procs(table[..]) == Procs(t);
    }

    method ScheduleNext()
      requires Valid()
      modifies this, table
      ensures Valid() && enabled == old(enabled)
      ensures Snapshot() == if enabled then Schedule(old(Snapshot())) else old(Snapshot())
    {
      hide Chained, Procs, EndsOf, Inv;
      if !enabled {
        return;
      }
      ghost var s := Snapshot();
      SwitchBounds(s);
      ScheduleInv(s);
      var next := GetNextProcess();
      if next == NONE {
        return;
      }
      var previous := current;
      if previous != NONE && table[previous].proc.status == Running {
        AddProcess(previous);
      }
      current := next;
      ProcWritten(table[..], queue, next, table[next].proc.(status := Running, used := 0));
      table[next] := table[next].(proc := table[next].proc.(status := Running, used := 0));
    }

    /** scheduler_yield */
    method Yield()
      requires Valid()
      modifies this, table
      ensures Valid() && enabled == old(enabled)
      ensures Snapshot() == if enabled then Schedule(old(Snapshot())) else old(Snapshot())
    {
      if !enabled {
        return;
      }
      ScheduleNext();
    }

    /** scheduler_tick */
    method TimerTick()
      requires Valid()
      modifies this, table
      ensures Valid() && enabled == old(enabled)
      ensures Snapshot() == if enabled then Tick(old(Snapshot())) else old(Snapshot())
    {
      hide Schedule;
      if !enabled || current == NONE {
        return;
      }
      ghost var s := Snapshot();
      table[current] := table[current].(proc := table[current].proc.(used := Wrap(table[current].proc.used + 1)));
      assert Snapshot() == Charged(s);
      if table[current].proc.used >= table[current].proc.slice {
        Yield();
      }
    }

    /** process_exit; with the scheduler disabled the process is marked and stays current. */
    method ExitProcess()
      requires Valid()
      modifies this, table
      ensures Valid() && enabled == old(enabled)
      ensures Snapshot() == if enabled then Exit(old(Snapshot())) else Terminate(old(Snapshot()))
      ensures var c := old(current);
        c >= 0 && old(table[..])[c].proc.pid != 0 ==> table[c].proc.status == Terminated && c !in queue
    {
      hide Schedule;
      if current == NONE || table[current].proc.pid == 0 {
        return;
      }
      ghost var s := Snapshot();
      ExitEffect(s);
      TerminateInv(s);
      table[current] := table[current].(proc := table[current].proc.(status := Terminated));
      assert Snapshot() == Terminate(s);
      ScheduleNext();
    }

    method GetNextPid() returns (pid: nat)
      requires Valid()
      modifies this`nextPid
      ensures Valid() && pid == old(nextPid) && Snapshot() == old(Snapshot()).(nextPid := PidAfter(old(nextPid)))
    {
      pid := nextPid;
      nextPid := nextPid + 1;
      if nextPid >= MAX_PROCESSES {
        nextPid := 1;
      }
    }

    /** process_create; `resources` says whether the address space and the two stacks could be had. */
    method CreateProcess(priority: int, resources: bool) returns (p: int)
      requires Valid()
      modifies this, table
      ensures Valid() && enabled == old(enabled) && Snapshot() == Create(old(Snapshot()), priority)
      ensures p == if resources && old(FreeSlot(Procs(table[..]), 1)) < MAX_PROCESSES
        then old(FreeSlot(Procs(table[..]), 1)) else NONE
    {
      ghost var s := Snapshot();
      var i := 1;
      while i < MAX_PROCESSES && table[i].proc.status != Unused
        invariant 1 <= i <= MAX_PROCESSES && FreeSlot(s.procs, 1) == FreeSlot(s.procs, i)
      {
        i := i + 1;
      }
      if i == MAX_PROCESSES {
        return NONE;
      }
      CreateInv(s, priority);
      assert i !in queue;
      var pid := GetNextPid();
      table[i] := Pcb(Proc(pid, Ready, SliceFor(priority), 0), NONE);
      assert Snapshot() == Create(s, priority);
      p := if resources then i else NONE;
    }

    /** process_destroy */
    method DestroyProcess(p: int)
      requires Valid() && (p == NONE || (IsSlot(p) && p !in queue))
      modifies this, table
      ensures Valid() && enabled == old(enabled)
      ensures Snapshot() == if p == NONE then old(Snapshot()) else Destroy(old(Snapshot()), p)
    {
      if p == NONE || table[p].proc.pid == 0 {
        return;
      }
      ghost var s := Snapshot();
      DestroyInv(s, p);
      table[p] := Pcb(EMPTY_SLOT, NONE);
      assert Snapshot() == Destroy(s, p);
    }

    /** Every event of a run is one call: the linked queue behaves as the abstract one for ever. */
    method Perform(e: Event, resources: bool)
      requires Valid() && enabled && Allowed(Snapshot(), e)
      requires e.RemoveEvent? ==> IsSlot(e.p)
      modifies this, table
      ensures Valid() && enabled && Snapshot() == Step(old(Snapshot()), e)
    {
      hide Inv, Chained, Procs, EndsOf, Schedule, Tick, Exit, Add, Remove, Create, Destroy;
      ghost var s := Snapshot();
      SwitchBounds(s);
      StepInv(s, e);
      match e {
        case TickEvent => TimerTick();
        case AddEvent(p) => AddProcess(p);
        case RemoveEvent(p) => RemoveProcess(p);
        case YieldEvent => Yield();
        case ExitEvent => ExitProcess();
        case CreateEvent(priority) => var p := CreateProcess(priority, resources);
        case DestroyEvent(p) => DestroyProcess(p);
      }
    }
  }
}
