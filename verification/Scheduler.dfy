/** The scheduler of one CPU (kernel/task.c): a queue of tasks with counters that are refilled from
    their priorities, the choice of the next task, and the timer tick. This module is the specification
    on values; `TaskKernel` proves the loops against it. */
module Scheduler {
  import opened Wrappers

  const RUNNING: int := 0    // TASK_STATE_RUNNING
  const KILLED: int := 2     // TASK_STATE_KILLED

  type i32 = x: int | -0x8000_0000 <= x < 0x8000_0000

  datatype Task = Task(state: int, prio: i32, counter: i32) {
    predicate Runs() { state == RUNNING }
  }

  /** An `int` counter as the loop compares it: converted to 64 bits unsigned. */
  function Unsigned(counter: i32): int {
    if counter < 0 then counter + 0x1_0000_0000_0000_0000 else counter
  }

  /** It is the same number modulo 2 to the 64, as the comparison with a `u64` takes it. */
  lemma UnsignedIsModular(counter: i32)
    ensures 0 <= Unsigned(counter) < 0x1_0000_0000_0000_0000
    ensures (Unsigned(counter) - counter) % 0x1_0000_0000_0000_0000 == 0
  {
  }

  /** `counter--` */
  function Decrement(counter: i32): i32 {
    if counter == -0x8000_0000 then 0x7fff_ffff else counter - 1
  }

  /** The task a scan of the queue settles on: each running task at least as large as the best so far
      takes over. */
  function Candidate(q: seq<Task>): (r: Option<nat>)
    ensures r.Some? ==> r.value < |q|
  {
    if q == [] then None
    else
      var n := |q| - 1;
      var best := Candidate(q[..n]);
      if q[n].Runs() && (best.None? || Unsigned(q[n].counter) >= Unsigned(q[best.value].counter)) then Some(n) else best
  }

  /** One more step of the scan. */
  lemma CandidateStep(q: seq<Task>, k: nat)
    requires k < |q|
    ensures var best := Candidate(q[..k]);
      Candidate(q[..k + 1]) ==
        if q[k].Runs() && (best.None? || Unsigned(q[k].counter) >= Unsigned(q[best.value].counter)) then Some(k)
        else best
  {
    assert q[..k + 1][..k] == q[..k];
  }

  /** It is the last running task with the largest counter. */
  lemma {:induction false} CandidateIsLastMaximum(q: seq<Task>)
    ensures Candidate(q).None? <==> forall i :: 0 <= i < |q| ==> !q[i].Runs()
    ensures Candidate(q).Some? ==>
      var j := Candidate(q).value;
      && q[j].Runs()
      && (forall i :: 0 <= i < |q| && q[i].Runs() ==> Unsigned(q[i].counter) <= Unsigned(q[j].counter))
      && (forall i :: j < i < |q| && q[i].Runs() ==> Unsigned(q[i].counter) < Unsigned(q[j].counter))
  {
    if q != [] {
      CandidateIsLastMaximum(q[..|q| - 1]);
    }
  }

  function RefillTask(t: Task): Task {
    if t.Runs() then t.(counter := t.prio) else t
  }

  function Refill(q: seq<Task>): seq<Task> {
    seq(|q|, i requires 0 <= i < |q| => RefillTask(q[i]))
  }

  /** Another pass is needed: the best running task has used up its counter. */
  predicate Spent(q: seq<Task>) {
    Candidate(q).Some? && q[Candidate(q).value].counter == 0
  }

  lemma SpentMeansAllSpent(q: seq<Task>)
    ensures Spent(q) <==>
      (exists i :: 0 <= i < |q| && q[i].Runs()) && forall i :: 0 <= i < |q| && q[i].Runs() ==> q[i].counter == 0
  {
    CandidateIsLastMaximum(q);
  }

  lemma RefillHasCandidate(q: seq<Task>)
    requires Spent(q)
    ensures Candidate(Refill(q)).Some?
  {
    CandidateIsLastMaximum(q);
    CandidateIsLastMaximum(Refill(q));
    assert Refill(q)[Candidate(q).value].Runs();
  }

  /** The `goto` loop ends: after at most one refill the queue is not spent. */
  predicate PickEnds(q: seq<Task>) {
    Spent(q) ==> !Spent(Refill(q))
  }

  /** It ends exactly if nothing runs, or some running task has counter or priority left. */
  lemma PickEndsExactly(q: seq<Task>)
    ensures PickEnds(q) <==>
      (forall i :: 0 <= i < |q| ==> !q[i].Runs()) ||
      exists i :: 0 <= i < |q| && q[i].Runs() && (q[i].counter != 0 || q[i].prio != 0)
  {
    SpentMeansAllSpent(q);
    SpentMeansAllSpent(Refill(q));
    if Spent(q) && !Spent(Refill(q)) {
      var j :| 0 <= j < |q| && q[j].Runs();
      assert Refill(q)[j].Runs();
      var i :| 0 <= i < |q| && Refill(q)[i].Runs() && Refill(q)[i].counter != 0;
      assert q[i].Runs() && q[i].prio != 0;
    }
    forall i | 0 <= i < |q| && q[i].Runs() && q[i].prio != 0 ensures !Spent(Refill(q)) {
      assert Refill(q)[i].Runs() && Refill(q)[i].counter != 0;
    }
  }

  /** Otherwise every further pass finds the same queue again, so the loop never ends. */
  lemma PickLoopsForever(q: seq<Task>)
    requires !PickEnds(q)
    ensures Spent(Refill(q)) && Refill(Refill(q)) == Refill(q)
  {
  }

  /** What `pick_next_task` leaves in the queue. */
  function AfterPick(q: seq<Task>): seq<Task> {
    if Spent(q) then Refill(q) else q
  }

  /** The choice: nothing exactly if nothing runs; else the last running task with the largest counter,
      which is not zero. */
  lemma PickIsRight(q: seq<Task>)
    requires PickEnds(q)
    ensures var q' := AfterPick(q);
      && |q'| == |q|
      && (forall i :: 0 <= i < |q| ==> q'[i].state == q[i].state && q'[i].prio == q[i].prio)
      && (Candidate(q').None? <==> forall i :: 0 <= i < |q| ==> !q[i].Runs())
      && (Candidate(q').Some? ==> q[Candidate(q').value].Runs() && q'[Candidate(q').value].counter != 0)
  {
    CandidateIsLastMaximum(q);
    CandidateIsLastMaximum(AfterPick(q));
  }

  /** The task a CPU runs. */
  datatype Current = Nothing | Idle | Running(index: nat)

  /** A run queue with its current task. */
  datatype Queue = Queue(tasks: seq<Task>, current: Current)

  function Schedule(s: Queue): Queue {
    var next := Candidate(AfterPick(s.tasks));
    Queue(AfterPick(s.tasks), if next.None? then Idle else Running(next.value))
  }

  /** The idle task is current exactly if nothing runs; otherwise it is a running task with counter left. */
  lemma ScheduleIsRight(s: Queue)
    requires PickEnds(s.tasks)
    ensures Schedule(s).current == Idle <==> forall i :: 0 <= i < |s.tasks| ==> !s.tasks[i].Runs()
    ensures Schedule(s).current != Idle ==>
      var next := Schedule(s).current;
      && next.Running? && next.index < |s.tasks| == |Schedule(s).tasks|
      && s.tasks[next.index].Runs() && Schedule(s).tasks[next.index].counter != 0
  {
    PickIsRight(s.tasks);
  }

  /** The current task still has counter to burn. */
  predicate Charges(s: Queue) {
    s.current.Running? && s.current.index < |s.tasks| && s.tasks[s.current.index].counter != 0
  }

  predicate ChargesTask(s: Queue, i: nat) { Charges(s) && s.current == Running(i) }

  function AfterCharge(t: Task, charged: bool): Task {
    if charged then t.(counter := Decrement(t.counter)) else t
  }

  /** `task_timer_tick` */
  function Tick(s: Queue): Queue {
    if Charges(s) then
      var i := s.current.index;
      s.(tasks := s.tasks[i := AfterCharge(s.tasks[i], true)])
    else Schedule(s)
  }

  function Ticks(s: Queue, n: nat): Queue {
    if n == 0 then s else Tick(Ticks(s, n - 1))
  }

  /** The premise of fairness: the tasks that run have positive priority and no more counter than that,
      and the current task is one of them or none. */
  ghost predicate Sane(s: Queue) {
    && (forall i :: 0 <= i < |s.tasks| && s.tasks[i].Runs() ==>
      0 <= s.tasks[i].counter <= s.tasks[i].prio && 0 < s.tasks[i].prio)
    && (s.current.Running? ==> s.current.index < |s.tasks| && s.tasks[s.current.index].Runs())
  }

  /** How many ticks before the next refill go to a task: its counter, and one to switch to it. */
  function Due(t: Task, current: bool): int {
    if !t.Runs() then 0 else t.counter + if !current && t.counter != 0 then 1 else 0
  }

  /** Ticks before the next refill, due to the first `n` tasks. */
  function Remaining(s: Queue, n: nat): int
    requires n <= |s.tasks|
  {
    if n == 0 then 0 else Remaining(s, n - 1) + Due(s.tasks[n - 1], s.current == Running(n - 1))
  }

  function Left(s: Queue): int { Remaining(s, |s.tasks|) }

  lemma {:induction false} RemainingNonNegative(s: Queue, n: nat)
    requires Sane(s) && n <= |s.tasks|
    ensures Remaining(s, n) >= 0
    ensures Remaining(s, n) == 0 <==> forall i :: 0 <= i < n ==> Due(s.tasks[i], s.current == Running(i)) == 0
  {
    if n > 0 {
      RemainingNonNegative(s, n - 1);
      assert Due(s.tasks[n - 1], s.current == Running(n - 1)) >= 0;
    }
  }

  /** Two queues that differ in what is due to task `j` alone. */
  lemma {:induction false} RemainingDiffers(s: Queue, s': Queue, j: nat, n: nat)
    requires n <= |s.tasks| == |s'.tasks| && j < |s.tasks|
    requires forall i :: 0 <= i < n && i != j ==>
      Due(s'.tasks[i], s'.current == Running(i)) == Due(s.tasks[i], s.current == Running(i))
    ensures Remaining(s', n) == Remaining(s, n) + if j < n
      then Due(s'.tasks[j], s'.current == Running(j)) - Due(s.tasks[j], s.current == Running(j)) else 0
  {
    if n > 0 {
      RemainingDiffers(s, s', j, n - 1);
    }
  }

  /** Same tasks, and the ones that do not run untouched. */
  ghost predicate SameTasks(q: seq<Task>, q': seq<Task>) {
    |q'| == |q| && forall i :: 0 <= i < |q| ==>
      q'[i].state == q[i].state && q'[i].prio == q[i].prio && (!q[i].Runs() ==> q'[i] == q[i])
  }

  /** Before the refill every tick uses up exactly one of the ticks left, and charges at most the
      current task. */
  lemma TickCountsDown(s: Queue)
    requires Sane(s) && Left(s) > 0
    ensures Sane(Tick(s)) && Left(Tick(s)) == Left(s) - 1
    ensures SameTasks(s.tasks, Tick(s).tasks)
    ensures forall i :: 0 <= i < |s.tasks| ==> Tick(s).tasks[i] == AfterCharge(s.tasks[i], ChargesTask(s, i))
  {
    if Charges(s) {
      RemainingDiffers(s, Tick(s), s.current.index, |s.tasks|);
    } else {
      SwitchWithoutRefill(s);
    }
  }

  lemma SwitchWithoutRefill(s: Queue)
    requires Sane(s) && Left(s) > 0 && !Charges(s)
    ensures Tick(s).tasks == s.tasks && Sane(Tick(s)) && Left(Tick(s)) == Left(s) - 1
  {
    RemainingNonNegative(s, |s.tasks|);
    var i :| 0 <= i < |s.tasks| && Due(s.tasks[i], s.current == Running(i)) != 0;
    assert s.tasks[i].Runs() && s.tasks[i].counter != 0;
    CandidateIsLastMaximum(s.tasks);
    SpentMeansAllSpent(s.tasks);
    var j := Candidate(s.tasks).value;
    assert Tick(s) == Queue(s.tasks, Running(j)) && s.tasks[j].counter > 0;
    RemainingDiffers(s, Tick(s), j, |s.tasks|);
  }

  /** The queue right after a refill: it depends on priorities and states only. */
  function Refilled(q: seq<Task>): Queue {
    var next := Candidate(Refill(q));
    Queue(Refill(q), if next.None? then Idle else Running(next.value))
  }

  /** Length of an epoch: one tick to switch to each running task and `prio` ticks to charge it. */
  function Epoch(q: seq<Task>, n: nat): int
    requires n <= |q|
  {
    if n == 0 then 0 else Epoch(q, n - 1) + if q[n - 1].Runs() then q[n - 1].prio + 1 else 0
  }

  /** With no ticks left the next choice refills every running task at once, */
  lemma ScheduleRefills(s: Queue)
    requires Sane(s) && Left(s) == 0 && exists i :: 0 <= i < |s.tasks| && s.tasks[i].Runs()
    ensures Spent(s.tasks) && !Charges(s)
    ensures Schedule(s) == Refilled(s.tasks) && Sane(Schedule(s))
    ensures Left(Schedule(s)) == Epoch(s.tasks, |s.tasks|) - 1
  {
    hide Candidate;
    RemainingNonNegative(s, |s.tasks|);
    forall i | 0 <= i < |s.tasks| && s.tasks[i].Runs() ensures s.tasks[i].counter == 0 {
      assert Due(s.tasks[i], s.current == Running(i)) == 0;
    }
    SpentMeansAllSpent(s.tasks);
    CandidateIsLastMaximum(Refill(s.tasks));
    var j :| 0 <= j < |s.tasks| && s.tasks[j].Runs();
    assert Refill(s.tasks)[j].Runs();
    EpochOfRefilled(s.tasks, |s.tasks|);
  }

  /** and so does the next tick. */
  lemma TickRefills(s: Queue)
    requires Sane(s) && Left(s) == 0 && exists i :: 0 <= i < |s.tasks| && s.tasks[i].Runs()
    ensures Tick(s) == Refilled(s.tasks) && Sane(Tick(s))
    ensures Left(Tick(s)) == Epoch(s.tasks, |s.tasks|) - 1
  {
    hide Schedule;
    hide Sane;
    hide Left;
    ScheduleRefills(s);
  }

  lemma {:induction false} EpochOfRefilled(q: seq<Task>, n: nat)
    requires n <= |q| && forall i :: 0 <= i < |q| && q[i].Runs() ==> q[i].prio > 0
    requires Candidate(Refill(q)).Some?
    ensures Remaining(Refilled(q), n) == Epoch(q, n) - if Candidate(Refill(q)).value < n then 1 else 0
  {
    if n > 0 {
      EpochOfRefilled(q, n - 1);
      CandidateIsLastMaximum(Refill(q));
    }
  }

  lemma SameTasksRefillAlike(q: seq<Task>, q': seq<Task>)
    requires SameTasks(q, q')
    ensures Refill(q') == Refill(q) && Refilled(q') == Refilled(q)
  {
    forall i | 0 <= i < |q| ensures Refill(q')[i] == Refill(q)[i] {
      assert q'[i].state == q[i].state;
    }
  }

  /** Up to the next refill, ticks count down and keep every invariant. */
  lemma {:induction false} TicksCountDown(s: Queue, n: nat)
    requires Sane(s) && n <= Left(s)
    ensures Sane(Ticks(s, n)) && Left(Ticks(s, n)) == Left(s) - n && SameTasks(s.tasks, Ticks(s, n).tasks)
  {
    hide Tick;
    hide Left;
    hide Sane;
    if n > 0 {
      TicksCountDown(s, n - 1);
      TickCountsDown(Ticks(s, n - 1));
    }
  }

  /** From any sane state with a running task, the refill comes after exactly `Left` more ticks. */
  lemma RefillComes(s: Queue)
    requires Sane(s) && exists i :: 0 <= i < |s.tasks| && s.tasks[i].Runs()
    ensures Left(s) >= 0 && Ticks(s, Left(s) + 1) == Refilled(s.tasks) && Sane(Refilled(s.tasks))
    ensures Left(Refilled(s.tasks)) == Epoch(s.tasks, |s.tasks|) - 1
  {
    RemainingNonNegative(s, |s.tasks|);
    var end := Ticks(s, Left(s));
    TicksCountDown(s, Left(s));
    var i :| 0 <= i < |s.tasks| && s.tasks[i].Runs();
    assert end.tasks[i].Runs();
    TickRefills(end);
    SameTasksRefillAlike(s.tasks, end.tasks);
    SameEpoch(s.tasks, end.tasks, |s.tasks|);
  }

  lemma {:induction false} SameEpoch(q: seq<Task>, q': seq<Task>, n: nat)
    requires SameTasks(q, q') && n <= |q|
    ensures Epoch(q', n) == Epoch(q, n)
  {
    if n > 0 {
      SameEpoch(q, q', n - 1);
    }
  }

  /** The schedule is periodic: one epoch after a refill everything is as it was. */
  lemma EpochsRepeat(q: seq<Task>)
    requires Sane(Refilled(q)) && exists i :: 0 <= i < |q| && q[i].Runs()
    ensures Epoch(q, |q|) == Left(Refilled(q)) + 1 > 0
    ensures Ticks(Refilled(q), Epoch(q, |q|)) == Refilled(q)
  {
    hide Tick;
    hide Candidate;
    hide Sane;
    hide Ticks;
    hide Left;
    var s := Refilled(q);
    var j :| 0 <= j < |q| && q[j].Runs();
    assert s.tasks[j].Runs();
    RefillComes(s);
    RefillIsIdempotent(q);
    SameEpochRefilled(q, |q|);
  }

  lemma RefillIsIdempotent(q: seq<Task>)
    ensures Refill(Refill(q)) == Refill(q) && Refilled(Refill(q)) == Refilled(q)
  {
  }

  lemma {:induction false} SameEpochRefilled(q: seq<Task>, n: nat)
    requires n <= |q|
    ensures Epoch(Refill(q), n) == Epoch(q, n)
  {
    if n > 0 {
      SameEpochRefilled(q, n - 1);
    }
  }

  /** What a task can wait for: the timer tick, and voluntary calls of `schedule`. */
  datatype Act = OnTick | OnYield

  function Do(s: Queue, a: Act): Queue {
    match a
    case OnTick => Tick(s)
    case OnYield => Schedule(s)
  }

  function DoAll(s: Queue, acts: seq<Act>): Queue {
    if acts == [] then s else Do(DoAll(s, acts[..|acts| - 1]), acts[|acts| - 1])
  }

  function TicksIn(acts: seq<Act>): nat {
    if acts == [] then 0 else TicksIn(acts[..|acts| - 1]) + if acts[|acts| - 1].OnTick? then 1 else 0
  }

  /** Two changes of what is due: a yield takes the CPU from one task and gives it to another. */
  lemma YieldWithoutRefill(s: Queue)
    requires Sane(s) && Left(s) > 0
    ensures Schedule(s).tasks == s.tasks && Sane(Schedule(s)) && Left(Schedule(s)) <= Left(s)
    ensures !Spent(s.tasks)
  {
    hide Candidate;
    hide Remaining;
    RemainingNonNegative(s, |s.tasks|);
    var i :| 0 <= i < |s.tasks| && Due(s.tasks[i], s.current == Running(i)) != 0;
    CandidateIsLastMaximum(s.tasks);
    SpentMeansAllSpent(s.tasks);
    var j := Candidate(s.tasks).value;
    var s' := Schedule(s);
    assert s' == Queue(s.tasks, Running(j)) && s.tasks[j].counter > 0;
    if s.current != Running(j) {
      var between := s.(current := Nothing);
      if s.current.Running? {
        RemainingDiffers(s, between, s.current.index, |s.tasks|);
      } else {
        RemainingDiffers(s, between, j, |s.tasks|);
      }
      RemainingDiffers(between, s', j, |s.tasks|);
    }
  }

  /** Neither act breaks the premise: counters stay between 0 and the priority. */
  lemma DoKeepsSane(s: Queue, a: Act)
    requires Sane(s)
    ensures Sane(Do(s, a)) && SameTasks(s.tasks, Do(s, a).tasks)
  {
    RemainingNonNegative(s, |s.tasks|);
    if i :| 0 <= i < |s.tasks| && s.tasks[i].Runs() {
      if Left(s) > 0 {
        TickCountsDown(s);
        YieldWithoutRefill(s);
      } else {
        ScheduleRefills(s);
        TickRefills(s);
      }
    } else {
      CandidateIsLastMaximum(s.tasks);
    }
  }

  lemma {:induction false} DoAllKeepsSane(s: Queue, acts: seq<Act>)
    requires Sane(s)
    ensures Sane(DoAll(s, acts)) && SameTasks(s.tasks, DoAll(s, acts).tasks)
  {
    hide Sane;
    hide Do;
    if acts != [] {
      DoAllKeepsSane(s, acts[..|acts| - 1]);
      DoKeepsSane(DoAll(s, acts[..|acts| - 1]), acts[|acts| - 1]);
    }
  }

  /** No act of a run finds the queue spent, so none refills it. */
  ghost predicate NoRefill(s: Queue, acts: seq<Act>) {
    forall k :: 0 <= k < |acts| ==> !Spent(DoAll(s, acts[..k]).tasks)
  }

  /** How many acts of a run charge task `i`. */
  ghost function Charged(s: Queue, acts: seq<Act>, i: nat): nat {
    if acts == [] then 0
    else
      var n := |acts| - 1;
      Charged(s, acts[..n], i) + if acts[n].OnTick? && ChargesTask(DoAll(s, acts[..n]), i) then 1 else 0
  }

  /** Between refills a counter loses one for each charge. */
  lemma DoWithoutRefill(s: Queue, a: Act, i: nat)
    requires Sane(s) && !Spent(s.tasks) && i < |s.tasks| && s.tasks[i].Runs()
    ensures |Do(s, a).tasks| == |s.tasks|
    ensures Do(s, a).tasks[i].counter == s.tasks[i].counter - if a.OnTick? && ChargesTask(s, i) then 1 else 0
  {
    SpentMeansAllSpent(s.tasks);
    RemainingNonNegative(s, |s.tasks|);
    var j :| 0 <= j < |s.tasks| && s.tasks[j].Runs() && s.tasks[j].counter != 0;
    assert Due(s.tasks[j], s.current == Running(j)) != 0;
    hide Candidate;
    TickCountsDown(s);
    YieldWithoutRefill(s);
  }

  lemma {:induction false} ChargedIsCounterLoss(s: Queue, acts: seq<Act>, i: nat)
    requires Sane(s) && NoRefill(s, acts) && i < |s.tasks| && s.tasks[i].Runs()
    ensures |DoAll(s, acts).tasks| == |s.tasks|
    ensures Charged(s, acts, i) == s.tasks[i].counter - DoAll(s, acts).tasks[i].counter
  {
    hide Do;
    hide Spent;
    hide Sane;
    hide ChargesTask;
    if acts != [] {
      var n := |acts| - 1;
      forall k | 0 <= k < n ensures !Spent(DoAll(s, acts[..n][..k]).tasks) {
        assert acts[..n][..k] == acts[..k];
      }
      ChargedIsCounterLoss(s, acts[..n], i);
      DoAllKeepsSane(s, acts[..n]);
      DoWithoutRefill(DoAll(s, acts[..n]), acts[n], i);
    }
  }

  /** From one refill to the next, in any mix of ticks and yields, each running task is charged exactly its
      priority. */
  lemma ChargedItsPriority(q: seq<Task>, acts: seq<Act>, i: nat)
    requires Sane(Refilled(q)) && i < |q| && q[i].Runs()
    requires NoRefill(Refilled(q), acts) && Spent(DoAll(Refilled(q), acts).tasks)
    ensures Charged(Refilled(q), acts, i) == q[i].prio
  {
    hide Sane;
    hide Charged;
    hide NoRefill;
    hide Do;
    var s := Refilled(q);
    ChargedIsCounterLoss(s, acts, i);
    DoAllKeepsSane(s, acts);
    SpentMeansAllSpent(DoAll(s, acts).tasks);
  }

  lemma {:induction false} RemainingWithinEpoch(s: Queue, n: nat)
    requires Sane(s) && n <= |s.tasks|
    ensures Remaining(s, n) <= Epoch(s.tasks, n)
  {
    if n > 0 {
      RemainingWithinEpoch(s, n - 1);
    }
  }

  /** How many ticks a task that is not current has to wait at most: those left before the refill, and one
      epoch more if its counter is used up. */
  function Wait(s: Queue, i: nat): int
    requires i < |s.tasks|
  {
    Left(s) + if s.tasks[i].counter == 0 then Epoch(s.tasks, |s.tasks|) else 0
  }

  lemma WaitIsBounded(s: Queue, i: nat)
    requires Sane(s) && i < |s.tasks| && s.tasks[i].Runs() && s.current != Running(i)
    ensures 0 < Wait(s, i) <= 2 * Epoch(s.tasks, |s.tasks|)
  {
    RemainingNonNegative(s, |s.tasks|);
    RemainingWithinEpoch(s, |s.tasks|);
    if s.tasks[i].counter == 0 {
      RefillComes(s);
      RemainingNonNegative(Refilled(s.tasks), |s.tasks|);
    } else {
      assert Due(s.tasks[i], false) != 0;
    }
  }

  /** While a task is not current, every tick brings it nearer, and no yield takes it further away. */
  lemma WaitFalls(s: Queue, a: Act, i: nat)
    requires Sane(s) && i < |s.tasks| && s.tasks[i].Runs() && s.current != Running(i)
    ensures i < |Do(s, a).tasks| && Wait(Do(s, a), i) <= Wait(s, i) - if a.OnTick? then 1 else 0
  {
    DoKeepsSane(s, a);
    SameEpoch(s.tasks, Do(s, a).tasks, |s.tasks|);
    RemainingNonNegative(s, |s.tasks|);
    hide Candidate;
    hide Refill;
    if Left(s) > 0 {
      TickCountsDown(s);
      YieldWithoutRefill(s);
      if s.tasks[i].counter != 0 {
        assert Do(s, a).tasks[i].counter != 0;
      }
    } else {
      assert Due(s.tasks[i], false) == 0;
      ScheduleRefills(s);
      TickRefills(s);
      RefilledCounter(s.tasks, i);
    }
  }

  lemma RefilledCounter(q: seq<Task>, i: nat)
    requires i < |q| && q[i].Runs()
    ensures |Refilled(q).tasks| == |q| && Refilled(q).tasks[i].counter == q[i].prio
  {
  }

  lemma {:induction false} WaitFallsThroughout(s: Queue, acts: seq<Act>, i: nat)
    requires Sane(s) && i < |s.tasks| && s.tasks[i].Runs()
    requires forall k :: 0 <= k <= |acts| ==> DoAll(s, acts[..k]).current != Running(i)
    ensures i < |DoAll(s, acts).tasks| && Wait(DoAll(s, acts), i) + TicksIn(acts) <= Wait(s, i)
  {
    hide Sane;
    hide Do;
    hide Wait;
    if acts != [] {
      var n := |acts| - 1;
      forall k | 0 <= k <= n ensures DoAll(s, acts[..n][..k]).current != Running(i) {
        assert acts[..n][..k] == acts[..k];
      }
      WaitFallsThroughout(s, acts[..n], i);
      DoAllKeepsSane(s, acts[..n]);
      assert DoAll(s, acts[..n]).current != Running(i);
      WaitFalls(DoAll(s, acts[..n]), acts[n], i);
    }
  }

  /** No starvation: in any mix of ticks and yields, from any starting point, every running task is current
      before two epochs of ticks are over. */
  lemma NoStarvation(s: Queue, acts: seq<Act>, i: nat) returns (k: nat)
    requires Sane(s) && i < |s.tasks| && s.tasks[i].Runs() && TicksIn(acts) >= 2 * Epoch(s.tasks, |s.tasks|)
    ensures k <= |acts| && DoAll(s, acts[..k]).current == Running(i)
  {
    hide Sane;
    hide Do;
    hide Wait;
    if k' :| 0 <= k' <= |acts| && DoAll(s, acts[..k']).current == Running(i) {
      k := k';
    } else {
      k := 0;
      assert DoAll(s, acts[..0]) == s && acts[..|acts|] == acts;
      WaitFallsThroughout(s, acts, i);
      DoAllKeepsSane(s, acts);
      WaitIsBounded(s, i);
      WaitIsBounded(DoAll(s, acts), i);
      assert false;
    }
  }
}
