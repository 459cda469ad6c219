/** Run queues of several CPUs (kernel/task.c): creation, migration, ticks, voluntary scheduling and
    exit, as one machine over task numbers. `TaskKernel` proves the pointer code against it. */
module RunQueues {
  import opened Wrappers
  import S = Scheduler

  /** A task and the CPU its `cpu` field names. */
  datatype Info = Info(task: S.Task, cpu: int)

  /** `rq->current`: NULL, the idle task, or a task by number. */
  datatype Current = Nobody | IdleTask | Of(id: nat)

  datatype Rq = Rq(length: nat, list: seq<nat>, current: Current)

  datatype Machine = Machine(tasks: seq<Info>, queues: seq<Rq>) {
    /** Every task is on exactly one queue, once: the one its `cpu` field names. */
    ghost predicate WellFormed() {
      && (forall id :: 0 <= id < |tasks| ==> 0 <= tasks[id].cpu < |queues| && id in queues[tasks[id].cpu].list)
      && (forall c, k :: 0 <= c < |queues| && 0 <= k < |queues[c].list| ==>
        queues[c].list[k] < |tasks| && tasks[queues[c].list[k]].cpu == c)
      && (forall c :: 0 <= c < |queues| ==> Unique(queues[c].list) && Known(queues[c].current))
    }

    predicate Known(current: Current) { current.Of? ==> current.id < |tasks| }
  }

  ghost predicate Unique(s: seq<nat>) {
    forall i, j :: 0 <= i < j < |s| ==> s[i] != s[j]
  }

  /** The tasks of queue `c`, in list order. */
  ghost function OnQueue(m: Machine, c: nat): (q: seq<S.Task>)
    requires m.WellFormed() && c < |m.queues|
    ensures |q| == |m.queues[c].list|
  {
    seq(|m.queues[c].list|, k requires 0 <= k < |m.queues[c].list| => m.tasks[m.queues[c].list[k]].task)
  }

  /** Tasks after the refill of queue `c`. */
  ghost function RefilledTasks(m: Machine, c: nat): seq<Info>
    requires m.WellFormed() && c < |m.queues|
  {
    seq(|m.tasks|, i requires 0 <= i < |m.tasks| =>
      if i in m.queues[c].list then m.tasks[i].(task := S.RefillTask(m.tasks[i].task)) else m.tasks[i])
  }

  /** Tasks after a refill that visits `s` in order. */
  function RefillEach(tasks: seq<Info>, s: seq<nat>): (r: seq<Info>)
    requires forall k :: 0 <= k < |s| ==> s[k] < |tasks|
    ensures |r| == |tasks|
  {
    if s == [] then tasks
    else
      var n := |s| - 1;
      var before, id := RefillEach(tasks, s[..n]), s[n];
      before[id := before[id].(task := S.RefillTask(before[id].task))]
  }

  /** The loop over the list refills each of its tasks once. */
  lemma {:induction false} RefillEachIsExact(tasks: seq<Info>, s: seq<nat>, i: nat)
    requires (forall k :: 0 <= k < |s| ==> s[k] < |tasks|) && Unique(s) && i < |tasks|
    ensures RefillEach(tasks, s)[i] == if i in s then tasks[i].(task := S.RefillTask(tasks[i].task)) else tasks[i]
  {
    if s != [] {
      var n := |s| - 1;
      RefillEachIsExact(tasks, s[..n], i);
      assert s == s[..n] + [s[n]];
      assert s[n] !in s[..n];
    }
  }

  lemma RefillEachStep(tasks: seq<Info>, s: seq<nat>, k: nat)
    requires (forall j :: 0 <= j < |s| ==> s[j] < |tasks|) && k < |s|
    ensures var before, id := RefillEach(tasks, s[..k]), s[k];
      && RefillEach(tasks, s[..k + 1]) == before[id := before[id].(task := S.RefillTask(before[id].task))]
      && (!before[id].task.Runs() ==> RefillEach(tasks, s[..k + 1]) == before)
  {
    assert s[..k + 1][..k] == s[..k];
  }

  lemma RefillEachIsAll(m: Machine, c: nat)
    requires m.WellFormed() && c < |m.queues|
    ensures (forall k :: 0 <= k < |m.queues[c].list| ==> m.queues[c].list[k] < |m.tasks|) && Unique(m.queues[c].list)
    ensures RefillEach(m.tasks, m.queues[c].list[..0]) == m.tasks
    ensures RefillEach(m.tasks, m.queues[c].list) == RefilledTasks(m, c)
  {
    forall i | 0 <= i < |m.tasks| ensures RefillEach(m.tasks, m.queues[c].list)[i] == RefilledTasks(m, c)[i] {
      RefillEachIsExact(m.tasks, m.queues[c].list, i);
    }
  }

  ghost function Picked(m: Machine, c: nat): (r: Option<nat>)
    requires m.WellFormed() && c < |m.queues|
    ensures r.Some? ==> r.value in m.queues[c].list && r.value < |m.tasks|
  {
    var best := S.Candidate(S.AfterPick(OnQueue(m, c)));
    if best.None? then None else Some(m.queues[c].list[best.value])
  }

  /** `pick_next_task`: its effect on the counters. */
  ghost function AfterPick(m: Machine, c: nat): Machine
    requires m.WellFormed() && c < |m.queues|
  {
    if S.Spent(OnQueue(m, c)) then m.(tasks := RefilledTasks(m, c)) else m
  }

  function SetCurrent(m: Machine, c: nat, current: Current): Machine
    requires c < |m.queues|
  {
    m.(queues := m.queues[c := m.queues[c].(current := current)])
  }

  ghost function Schedule(m: Machine, c: nat): Machine
    requires m.WellFormed() && c < |m.queues|
  {
    SetCurrent(AfterPick(m, c), c, if Picked(m, c).None? then IdleTask else Of(Picked(m, c).value))
  }

  function SetTask(m: Machine, id: nat, t: S.Task): Machine
    requires id < |m.tasks|
  {
    m.(tasks := m.tasks[id := m.tasks[id].(task := t)])
  }

  /** A tick of CPU `c` is charged to its current task, and does not schedule. */
  predicate Charging(m: Machine, c: nat)
    requires c < |m.queues|
  {
    var current := m.queues[c].current;
    current.Of? && current.id < |m.tasks| && m.tasks[current.id].task.counter != 0
  }

  ghost function Tick(m: Machine, c: nat): Machine
    requires m.WellFormed() && c < |m.queues|
  {
    if Charging(m, c) then
      var id := m.queues[c].current.id;
      SetTask(m, id, S.AfterCharge(m.tasks[id].task, true))
    else Schedule(m, c)
  }

  function Killed(m: Machine, id: nat): Machine
    requires id < |m.tasks|
  {
    SetTask(m, id, m.tasks[id].task.(state := S.KILLED))
  }

  /** An `int` made from the low half of a `u64`, and that `int` back as a `u64`. */
  function LowInt(x: nat): S.i32 {
    var low := x % 0x1_0000_0000;
    if low < 0x8000_0000 then low else low - 0x1_0000_0000
  }

  lemma LowIntIsModular(x: nat)
    ensures -0x8000_0000 <= LowInt(x) < 0x8000_0000 && (x - LowInt(x)) % 0x1_0000_0000 == 0
  {
  }

  /** The choice of `cpu_min_load` after looking at the first `n` CPUs, with its `min_len`. */
  function MinLoad(m: Machine, online: seq<bool>, n: nat): (r: (nat, S.i32))
    requires n <= |m.queues| == |online|
    ensures r.0 < n || r.0 == 0
  {
    if n == 0 then (0, -1)
    else
      var best := MinLoad(m, online, n - 1);
      if online[n - 1] && m.queues[n - 1].length < S.Unsigned(best.1) then (n - 1, LowInt(m.queues[n - 1].length))
      else best
  }

  /** The online queues are shorter than 2 to the 32, and at most one of them is not shorter than half of
      that: then comparing truncated lengths is no mistake. */
  ghost predicate Comparable(m: Machine, online: seq<bool>, n: nat)
    requires n <= |m.queues| == |online|
  {
    && (forall c :: 0 <= c < n && online[c] ==> m.queues[c].length < 0x1_0000_0000)
    && forall c, d :: 0 <= c < d < n && online[c] && online[d] ==>
      m.queues[c].length < 0x8000_0000 || m.queues[d].length < 0x8000_0000
  }

  /** `best` is the first of the online CPUs with the shortest queue; 0 if none is online. */
  ghost predicate LeastLoaded(m: Machine, online: seq<bool>, n: nat, best: nat)
    requires n <= |m.queues| == |online|
  {
    if forall c :: 0 <= c < n ==> !online[c] then best == 0
    else
      && best < n && online[best]
      && (forall c :: 0 <= c < n && online[c] ==> m.queues[best].length <= m.queues[c].length)
      && (forall c :: 0 <= c < best && online[c] ==> m.queues[best].length < m.queues[c].length)
  }

  lemma TruncatedComparison(x: nat, y: nat)
    requires x < 0x1_0000_0000 && y < 0x1_0000_0000 && (x < 0x8000_0000 || y < 0x8000_0000)
    ensures x < S.Unsigned(LowInt(y)) <==> x < y
    ensures x < S.Unsigned(-1)
  {
  }

  lemma {:induction false} MinLoadIsLeast(m: Machine, online: seq<bool>, n: nat)
    requires n <= |m.queues| == |online| && Comparable(m, online, n)
    ensures LeastLoaded(m, online, n, MinLoad(m, online, n).0)
    ensures (forall c :: 0 <= c < n ==> !online[c]) ==> MinLoad(m, online, n).1 == -1
    ensures (exists c :: 0 <= c < n && online[c]) ==>
      MinLoad(m, online, n).1 == LowInt(m.queues[MinLoad(m, online, n).0].length)
  {
    hide LowInt;
    hide S.Unsigned;
    if n > 0 {
      MinLoadIsLeast(m, online, n - 1);
      NextIsCompared(m, online, n);
    }
  }

  /** One more CPU: the truncated comparison takes it exactly if it is the first online one or its queue is
      shorter than the shortest so far. */
  lemma NextIsCompared(m: Machine, online: seq<bool>, n: nat)
    requires 0 < n <= |m.queues| == |online| && Comparable(m, online, n)
    requires var best := MinLoad(m, online, n - 1);
      && LeastLoaded(m, online, n - 1, best.0)
      && best.1 == if forall c :: 0 <= c < n - 1 ==> !online[c] then -1 else LowInt(m.queues[best.0].length)
    ensures var best, next := MinLoad(m, online, n - 1), MinLoad(m, online, n);
      && (!online[n - 1] ==> next == best)
      && (online[n - 1] ==>
            if (forall c :: 0 <= c < n - 1 ==> !online[c]) || m.queues[n - 1].length < m.queues[best.0].length
            then next == (n - 1, LowInt(m.queues[n - 1].length)) else next == best)
  {
    hide LowInt;
    hide S.Unsigned;
    var best := MinLoad(m, online, n - 1).0;
    if online[n - 1] {
      if best < n - 1 && online[best] {
        TruncatedComparison(m.queues[n - 1].length, m.queues[best].length);
      } else {
        TruncatedComparison(m.queues[n - 1].length, 0);
      }
    }
  }

  function Target(m: Machine, cpu: int, online: seq<bool>): nat
    requires |m.queues| == |online| && -1 <= cpu
  {
    if cpu == -1 then MinLoad(m, online, |online|).0 else cpu
  }

  /** `create_task` */
  function Create(m: Machine, prio: S.i32, c: nat): Machine
    requires c < |m.queues|
  {
    var rq := m.queues[c];
    Machine(m.tasks + [Info(S.Task(S.RUNNING, prio, prio), c)],
            m.queues[c := Rq(rq.length + 1, rq.list + [|m.tasks|], rq.current)])
  }

  function Removed(s: seq<nat>, id: nat): seq<nat> {
    if s == [] then [] else if s[0] == id then s[1..] else [s[0]] + Removed(s[1..], id)
  }

  /** `migrate_task`: the list entry moves, `length` does not. */
  function Migrate(m: Machine, id: nat, c: nat): Machine
    requires id < |m.tasks| && 0 <= m.tasks[id].cpu < |m.queues| && c < |m.queues|
  {
    var from := m.tasks[id].cpu;
    if from == c then m
    else
      var rest := m.queues[from].(list := Removed(m.queues[from].list, id));
      var more := m.queues[c].(list := m.queues[c].list + [id]);
      Machine(m.tasks[id := m.tasks[id].(cpu := c)], m.queues[from := rest][c := more])
  }

  datatype Event =
    | TimerTick(c: nat)
    | Yield(c: nat)
    | Exit(c: nat, id: nat)
    | NewTask(prio: S.i32, cpu: int, online: seq<bool>)
    | Move(id: nat, c: nat)

  /** What the code demands of its callers: CPU numbers in range, and existing tasks. Where the choice of
      a next task would never end, nothing follows. */
  ghost predicate Enabled(m: Machine, e: Event)
    requires m.WellFormed()
  {
    match e
    case TimerTick(c) => c < |m.queues| && (Charging(m, c) || S.PickEnds(OnQueue(m, c)))
    case Yield(c) => c < |m.queues| && S.PickEnds(OnQueue(m, c))
    case Exit(c, id) => c < |m.queues| && id < |m.tasks| &&
      (KilledIsWellFormed(m, id); S.PickEnds(OnQueue(Killed(m, id), c)))
    case NewTask(prio, cpu, online) => |online| == |m.queues| > 0 && -1 <= cpu < |m.queues|
    case Move(id, c) => id < |m.tasks| && c < |m.queues|
  }

  lemma KilledIsWellFormed(m: Machine, id: nat)
    requires m.WellFormed() && id < |m.tasks|
    ensures Killed(m, id).WellFormed()
  {
  }

  ghost function Step(m: Machine, e: Event): Machine
    requires m.WellFormed() && Enabled(m, e)
  {
    match e
    case TimerTick(c) => Tick(m, c)
    case Yield(c) => Schedule(m, c)
    case Exit(c, id) => (KilledIsWellFormed(m, id); Schedule(Killed(m, id), c))
    case NewTask(prio, cpu, online) => Create(m, prio, Target(m, cpu, online))
    case Move(id, c) => Migrate(m, id, c)
  }

  /** No step loses a task, puts one on two queues, or leaves `cpu` wrong. */
  lemma StepKeepsWellFormed(m: Machine, e: Event)
    requires m.WellFormed() && Enabled(m, e)
    ensures Step(m, e).WellFormed()
  {
    hide Machine.WellFormed;
    hide S.PickEnds;
    hide AfterPick;
    hide Create;
    hide Migrate;
    match e {
      case TimerTick(c) => TickKeepsShape(m, c);
      case Yield(c) => ScheduleKeepsShape(m, c);
      case Exit(c, id) =>
        KilledIsWellFormed(m, id);
        ScheduleKeepsShape(Killed(m, id), c);
      case NewTask(prio, cpu, online) => CreateIsWellFormed(m, prio, Target(m, cpu, online));
      case Move(id, c) => MigrateIsWellFormed(m, id, c);
    }
  }

  /** The same tasks on the same queues. */
  ghost predicate SameShape(m: Machine, m': Machine) {
    && |m'.tasks| == |m.tasks| && |m'.queues| == |m.queues|
    && (forall i :: 0 <= i < |m.tasks| ==>
      && m'.tasks[i].cpu == m.tasks[i].cpu && m'.tasks[i].task.state == m.tasks[i].task.state
      && m'.tasks[i].task.prio == m.tasks[i].task.prio)
    && (forall c :: 0 <= c < |m.queues| ==>
      && m'.queues[c].list == m.queues[c].list && m'.queues[c].length == m.queues[c].length
      && m'.Known(m'.queues[c].current))
  }

  lemma SameShapeIsWellFormed(m: Machine, m': Machine)
    requires m.WellFormed() && SameShape(m, m')
    ensures m'.WellFormed()
  {
  }

  /** On the queue itself the choice does what it does on a single queue; other tasks are untouched. */
  lemma PickProjects(m: Machine, c: nat)
    requires m.WellFormed() && c < |m.queues|
    ensures SameShape(m, AfterPick(m, c)) && AfterPick(m, c).WellFormed()
    ensures AfterPick(m, c).queues == m.queues && OnQueue(AfterPick(m, c), c) == S.AfterPick(OnQueue(m, c))
    ensures forall i :: 0 <= i < |m.tasks| && m.tasks[i].cpu != c ==> AfterPick(m, c).tasks[i] == m.tasks[i]
  {
    hide S.Candidate;
    var m' := AfterPick(m, c);
    assert m'.queues == m.queues && |m'.tasks| == |m.tasks|;
    SameShapeIsWellFormed(m, m');
    forall k | 0 <= k < |m.queues[c].list| ensures OnQueue(m', c)[k] == S.AfterPick(OnQueue(m, c))[k] {
      assert m.queues[c].list[k] in m.queues[c].list;
    }
    forall i | 0 <= i < |m.tasks| && m.tasks[i].cpu != c ensures m'.tasks[i] == m.tasks[i] {
      assert i !in m.queues[c].list;
    }
  }

  lemma ScheduleKeepsShape(m: Machine, c: nat)
    requires m.WellFormed() && c < |m.queues|
    ensures SameShape(m, Schedule(m, c)) && Schedule(m, c).WellFormed()
  {
    hide S.Candidate;
    hide S.Spent;
    hide S.AfterPick;
    SameShapeIsWellFormed(m, Schedule(m, c));
  }

  lemma TickKeepsShape(m: Machine, c: nat)
    requires m.WellFormed() && c < |m.queues|
    ensures SameShape(m, Tick(m, c)) && Tick(m, c).WellFormed()
  {
    hide Schedule;
    ScheduleKeepsShape(m, c);
    SameShapeIsWellFormed(m, Tick(m, c));
  }

  lemma CreateIsWellFormed(m: Machine, prio: S.i32, c: nat)
    requires m.WellFormed() && c < |m.queues|
    ensures Create(m, prio, c).WellFormed()
  {
    var m' := Create(m, prio, c);
    assert m'.queues[c].list[|m.queues[c].list|] == |m.tasks|;
    forall id | 0 <= id < |m'.tasks| ensures id in m'.queues[m'.tasks[id].cpu].list {
      if id < |m.tasks| {
        assert id in m.queues[m.tasks[id].cpu].list;
      }
    }
  }

  lemma {:induction false} RemovedIsExact(s: seq<nat>, id: nat)
    requires Unique(s) && id in s
    ensures Unique(Removed(s, id)) && |Removed(s, id)| == |s| - 1
    ensures forall x :: x in Removed(s, id) <==> x in s && x != id
  {
    assert s == [s[0]] + s[1..];
    assert s[0] !in s[1..];
    if s[0] != id {
      RemovedIsExact(s[1..], id);
      assert s[0] !in Removed(s[1..], id);
    }
  }

  lemma {:induction false} RemovedAt(s: seq<nat>, k: nat)
    requires Unique(s) && k < |s|
    ensures Removed(s, s[k]) == s[..k] + s[k + 1..]
  {
    if k > 0 {
      RemovedAt(s[1..], k - 1);
      assert s[1..][..k - 1] == s[1..k];
    }
  }

  /** Who is on which queue after a move between two of them. */
  lemma MigrateMovesOne(m: Machine, id: nat, c: nat)
    requires m.WellFormed() && id < |m.tasks| && c < |m.queues| && m.tasks[id].cpu != c
    ensures var q, q' := m.queues, Migrate(m, id, c).queues;
      && |q'| == |q|
      && (forall d :: 0 <= d < |q| ==>
        Unique(q'[d].list) && q'[d].current == q[d].current && q'[d].length == q[d].length)
      && (forall d, x :: 0 <= d < |q| ==> (x in q'[d].list <==> if x == id then d == c else x in q[d].list))
  {
    var from := m.tasks[id].cpu;
    RemovedIsExact(m.queues[from].list, id);
    assert id !in m.queues[c].list;
    assert forall k :: 0 <= k < |m.queues[c].list| ==> m.queues[c].list[k] in m.queues[c].list;
    var q, q' := m.queues, Migrate(m, id, c).queues;
    forall d, x: nat | 0 <= d < |q| && x == id ensures x in q'[d].list <==> d == c {
      assert id in q[d].list ==> d == from;
      assert q'[c].list[|q[c].list|] == id;
    }
    forall d, x: nat | 0 <= d < |q| && x != id ensures x in q'[d].list <==> x in q[d].list {
    }
  }

  /** The queues after a move, in terms of the place the task had. */
  lemma MigrateQueues(m: Machine, id: nat, c: nat, k: nat)
    requires m.WellFormed() && id < |m.tasks| && c < |m.queues|
    requires k < |m.queues[m.tasks[id].cpu].list| && m.queues[m.tasks[id].cpu].list[k] == id
    ensures var m', from := Migrate(m, id, c), m.tasks[id].cpu;
      && (from == c ==> m' == m)
      && |m'.queues| == |m.queues| && m'.tasks == m.tasks[id := m.tasks[id].(cpu := c)]
      && (from != c ==>
        && m'.queues[from] == m.queues[from].(list := m.queues[from].list[..k] + m.queues[from].list[k + 1..])
        && m'.queues[c] == m.queues[c].(list := m.queues[c].list + [id])
        && forall d :: 0 <= d < |m.queues| && d != from && d != c ==> m'.queues[d] == m.queues[d])
  {
    RemovedAt(m.queues[m.tasks[id].cpu].list, k);
  }

  lemma MigrateIsWellFormed(m: Machine, id: nat, c: nat)
    requires m.WellFormed() && id < |m.tasks| && c < |m.queues|
    ensures Migrate(m, id, c).WellFormed()
  {
    if m.tasks[id].cpu != c {
      MigrateMovesOne(m, id, c);
      var m' := Migrate(m, id, c);
      assert m'.tasks == m.tasks[id := m.tasks[id].(cpu := c)];
      forall d, k | 0 <= d < |m'.queues| && 0 <= k < |m'.queues[d].list|
        ensures m'.queues[d].list[k] < |m'.tasks| && m'.tasks[m'.queues[d].list[k]].cpu == d
      {
        var x := m'.queues[d].list[k];
        assert x in m'.queues[d].list;
        assert x == id || x in m.queues[d].list;
      }
      forall x | 0 <= x < |m'.tasks| ensures x in m'.queues[m'.tasks[x].cpu].list {
        assert x in m.queues[m.tasks[x].cpu].list;
      }
    }
  }

  /** The machine after a run of events, or nothing if one of them was not possible. */
  ghost function After(m: Machine, es: seq<Event>): (r: Option<Machine>)
    requires m.WellFormed()
    ensures r.Some? ==> r.value.WellFormed()
  {
    if es == [] then Some(m)
    else
      var n := |es| - 1;
      var before := After(m, es[..n]);
      if before.None? || !Enabled(before.value, es[n]) then None
      else (StepKeepsWellFormed(before.value, es[n]); Some(Step(before.value, es[n])))
  }

  lemma {:induction false} PrefixRuns(m: Machine, es: seq<Event>, n: nat)
    requires m.WellFormed() && After(m, es).Some? && n <= |es|
    ensures After(m, es[..n]).Some?
  {
    hide Step;
    hide Enabled;
    if n == |es| {
      assert es[..n] == es;
    } else {
      PrefixRuns(m, es[..|es| - 1], n);
      assert es[..|es| - 1][..n] == es[..n];
    }
  }

  /** `task_init` */
  function Start(cpus: nat): Machine {
    Machine([], seq(cpus, _ => Rq(0, [], Nobody)))
  }

  /** The sum of the `length` fields of the first `n` queues. */
  function Lengths(qs: seq<Rq>, n: nat): nat
    requires n <= |qs|
  {
    if n == 0 then 0 else Lengths(qs, n - 1) + qs[n - 1].length
  }

  lemma {:induction false} LengthsDiffer(qs: seq<Rq>, qs': seq<Rq>, c: nat, n: nat)
    requires n <= |qs| == |qs'| && c < |qs|
    requires forall d :: 0 <= d < |qs| && d != c ==> qs'[d].length == qs[d].length
    ensures Lengths(qs', n) == Lengths(qs, n) + if c < n then qs'[c].length - qs[c].length else 0
  {
    if n > 0 {
      LengthsDiffer(qs, qs', c, n - 1);
    }
  }

  /** How far `length` is ahead of the number of entries: what a migration breaks. */
  function Surplus(m: Machine, c: nat): int
    requires c < |m.queues|
  {
    m.queues[c].length - |m.queues[c].list|
  }

  /** A task leaves queue `c`, or arrives there, without `length` being told. */
  function Untold(m: Machine, e: Event, c: nat): int {
    if !e.Move? || e.id >= |m.tasks| || m.tasks[e.id].cpu == e.c then 0
    else (if c == m.tasks[e.id].cpu then 1 else 0) - if c == e.c then 1 else 0
  }

  lemma StepAccounts(m: Machine, e: Event)
    requires m.WellFormed() && Enabled(m, e)
    ensures var m' := Step(m, e);
      && |m'.queues| == |m.queues|
      && Lengths(m'.queues, |m.queues|) - |m'.tasks| == Lengths(m.queues, |m.queues|) - |m.tasks|
      && forall c :: 0 <= c < |m.queues| ==> Surplus(m', c) == Surplus(m, c) + Untold(m, e, c)
  {
    hide S.PickEnds;
    hide AfterPick;
    hide Schedule;
    hide Tick;
    match e {
      case TimerTick(c) =>
        TickKeepsShape(m, c);
        LengthsDiffer(m.queues, Step(m, e).queues, c, |m.queues|);
      case Yield(c) =>
        ScheduleKeepsShape(m, c);
        LengthsDiffer(m.queues, Step(m, e).queues, c, |m.queues|);
      case Exit(c, id) =>
        KilledIsWellFormed(m, id);
        ScheduleKeepsShape(Killed(m, id), c);
        LengthsDiffer(m.queues, Step(m, e).queues, c, |m.queues|);
      case NewTask(prio, cpu, online) =>
        LengthsDiffer(m.queues, Step(m, e).queues, Target(m, cpu, online), |m.queues|);
      case Move(id, c) =>
        MigrateAccounts(m, id, c);
    }
  }

  lemma MigrateAccounts(m: Machine, id: nat, c: nat)
    requires m.WellFormed() && id < |m.tasks| && c < |m.queues|
    ensures var m' := Migrate(m, id, c);
      && Lengths(m'.queues, |m.queues|) == Lengths(m.queues, |m.queues|)
      && forall d :: 0 <= d < |m.queues| ==> Surplus(m', d) == Surplus(m, d) + Untold(m, Move(id, c), d)
  {
    if m.tasks[id].cpu != c {
      RemovedIsExact(m.queues[m.tasks[id].cpu].list, id);
      LengthsDiffer(m.queues, Migrate(m, id, c).queues, c, |m.queues|);
    }
  }

  /** Over any run: net departures from queue `c`. */
  ghost function NetDepartures(m: Machine, es: seq<Event>, c: nat): int
    requires m.WellFormed()
  {
    if es == [] then 0
    else
      var n := |es| - 1;
      NetDepartures(m, es[..n], c) + match After(m, es[..n]) case None => 0 case Some(x) => Untold(x, es[n], c)
  }

  /** Conservation over any run: the lengths keep adding up to the number of tasks, although each single
      one is off by exactly the migrations away from its queue less those to it. */
  lemma {:induction false} LengthsConserved(m: Machine, es: seq<Event>)
    requires m.WellFormed() && After(m, es).Some?
    ensures var m' := After(m, es).value;
      && |m'.queues| == |m.queues|
      && Lengths(m'.queues, |m.queues|) - |m'.tasks| == Lengths(m.queues, |m.queues|) - |m.tasks|
      && forall c :: 0 <= c < |m.queues| ==> Surplus(m', c) == Surplus(m, c) + NetDepartures(m, es, c)
  {
    hide Step;
    hide Enabled;
    hide Untold;
    if es != [] {
      LengthsConserved(m, es[..|es| - 1]);
      StepAccounts(After(m, es[..|es| - 1]).value, es[|es| - 1]);
    }
  }

  lemma {:induction false} LengthsInSum(qs: seq<Rq>, n: nat, c: nat, d: nat)
    requires n <= |qs| && c < d < n
    ensures qs[c].length + qs[d].length <= Lengths(qs, n)
  {
    if d < n - 1 {
      LengthsInSum(qs, n - 1, c, d);
    } else {
      LengthInSum(qs, n - 1, c);
    }
  }

  lemma {:induction false} LengthInSum(qs: seq<Rq>, n: nat, c: nat)
    requires n <= |qs| && c < n
    ensures qs[c].length <= Lengths(qs, n)
  {
    if c < n - 1 {
      LengthInSum(qs, n - 1, c);
    }
  }

  lemma {:induction false} NothingYet(cpus: nat, n: nat)
    requires n <= cpus
    ensures Lengths(Start(cpus).queues, n) == 0
  {
    if n > 0 {
      NothingYet(cpus, n - 1);
    }
  }

  /** What a creation does: the new task runs, with its priority as counter, at the end of the queue of the CPU
      asked for, which is counted there; nothing else changes. With -1 the CPU is the least loaded one as long as
      the lengths can be compared. */
  lemma CreationIsExact(m: Machine, prio: S.i32, cpu: int, online: seq<bool>)
    requires m.WellFormed() && Enabled(m, NewTask(prio, cpu, online))
    ensures var m', n := Step(m, NewTask(prio, cpu, online)), |m.tasks|;
      && |m'.tasks| == n + 1 && m'.tasks[..n] == m.tasks && |m'.queues| == |m.queues|
      && m'.tasks[n].task.state == S.RUNNING && m'.tasks[n].task.prio == prio == m'.tasks[n].task.counter
      && 0 <= m'.tasks[n].cpu < |m.queues| && (cpu >= 0 ==> m'.tasks[n].cpu == cpu)
      && (cpu == -1 && Comparable(m, online, |online|) ==> LeastLoaded(m, online, |online|, m'.tasks[n].cpu))
      && forall c :: 0 <= c < |m.queues| ==>
        && m'.queues[c].current == m.queues[c].current
        && m'.queues[c].list == m.queues[c].list + (if c == m'.tasks[n].cpu then [n] else [])
        && m'.queues[c].length == m.queues[c].length + if c == m'.tasks[n].cpu then 1 else 0
  {
    hide Machine.WellFormed;
    hide LeastLoaded;
    hide Comparable;
    if cpu == -1 && Comparable(m, online, |online|) {
      MinLoadIsLeast(m, online, |online|);
    }
  }

  lemma StartIsWellFormed(cpus: nat)
    ensures Start(cpus).WellFormed()
  {
  }

  lemma RunsAreComparable(cpus: nat, es: seq<Event>, online: seq<bool>)
    requires After(Start(cpus), es).Some? && |online| == |After(Start(cpus), es).value.queues|
    requires |After(Start(cpus), es).value.tasks| < 0x1_0000_0000
    ensures Comparable(After(Start(cpus), es).value, online, |online|)
  {
    hide After;
    var m := After(Start(cpus), es).value;
    LengthsConserved(Start(cpus), es);
    NothingYet(cpus, cpus);
    forall c | 0 <= c < |online| ensures m.queues[c].length < 0x1_0000_0000 {
      LengthInSum(m.queues, |online|, c);
    }
    forall c, d | 0 <= c < d < |online| ensures m.queues[c].length < 0x8000_0000 || m.queues[d].length < 0x8000_0000 {
      LengthsInSum(m.queues, |online|, c, d);
    }
  }

  /** In every run with fewer than 2 to the 32 tasks a creation that leaves the choice to the kernel puts the new
      task on the least loaded CPU, although the code compares truncated lengths. */
  lemma ChoiceIsLeastInRuns(cpus: nat, es: seq<Event>, prio: S.i32, online: seq<bool>)
    requires After(Start(cpus), es).Some? && |After(Start(cpus), es).value.tasks| < 0x1_0000_0000
    requires Enabled(After(Start(cpus), es).value, NewTask(prio, -1, online))
    ensures var m := After(Start(cpus), es).value;
      var m' := Step(m, NewTask(prio, -1, online));
      |m'.tasks| == |m.tasks| + 1 && m'.tasks[|m.tasks|].cpu >= 0
      && LeastLoaded(m, online, |online|, m'.tasks[|m.tasks|].cpu)
  {
    hide After;
    hide Step;
    hide LeastLoaded;
    hide Comparable;
    StartIsWellFormed(cpus);
    RunsAreComparable(cpus, es, online);
    CreationIsExact(After(Start(cpus), es).value, prio, -1, online);
  }

  /** What a migration does: the task leaves the list of its queue, where the others stay in order, and comes to
      the end of the other one; both lengths stay. */
  lemma MoveIsExact(m: Machine, id: nat, c: nat, k: nat)
    requires m.WellFormed() && id < |m.tasks| && c < |m.queues| && m.tasks[id].cpu != c
    requires k < |m.queues[m.tasks[id].cpu].list| && m.queues[m.tasks[id].cpu].list[k] == id
    ensures var m', from := Step(m, Move(id, c)), m.tasks[id].cpu;
      && |m'.queues| == |m.queues| && |m'.tasks| == |m.tasks| && m'.tasks[id].cpu == c
      && (forall i :: 0 <= i < |m.tasks| ==> m'.tasks[i].task == m.tasks[i].task)
      && (forall i :: 0 <= i < |m.tasks| && i != id ==> m'.tasks[i].cpu == m.tasks[i].cpu)
      && m'.queues[from].list == m.queues[from].list[..k] + m.queues[from].list[k + 1..]
      && m'.queues[c].list == m.queues[c].list + [id]
      && (forall d :: 0 <= d < |m.queues| ==>
        m'.queues[d].length == m.queues[d].length && m'.queues[d].current == m.queues[d].current)
      && forall d :: 0 <= d < |m.queues| && d != from && d != c ==> m'.queues[d].list == m.queues[d].list
  {
    hide Migrate;
    MigrateQueues(m, id, c, k);
  }

  lemma CreateOnFirst(m: Machine)
    requires m.WellFormed() && |m.queues| == 2
    ensures Enabled(m, NewTask(1, 0, [true, true]))
    ensures var m' := Step(m, NewTask(1, 0, [true, true]));
      |m'.queues| == 2 && |m'.tasks| == |m.tasks| + 1
      && m'.queues[0].length == m.queues[0].length + 1 && m'.queues[1].length == m.queues[1].length
  {
    hide Machine.WellFormed;
  }

  lemma AfterOneMore(m: Machine, es: seq<Event>, e: Event)
    requires m.WellFormed() && After(m, es).Some? && Enabled(After(m, es).value, e)
    ensures After(m, es + [e]) == Some(Step(After(m, es).value, e))
  {
    hide Machine.WellFormed;
    hide Enabled;
    hide Step;
    assert (es + [e])[..|es|] == es;
  }

  lemma {:induction false} AfterCreates(n: nat) returns (es: seq<Event>)
    ensures After(Start(2), es).Some?
    ensures var m := After(Start(2), es).value;
      |m.queues| == 2 && |m.tasks| == n && m.queues[0].length == n && m.queues[1].length == 0
  {
    if n == 0 {
      es := [];
    } else {
      hide Machine.WellFormed;
      hide Enabled;
      hide Step;
      hide Start;
      hide After;
      es := AfterCreates(n - 1);
      CreateOnFirst(After(Start(2), es).value);
      AfterOneMore(Start(2), es, NewTask(1, 0, [true, true]));
      es := es + [NewTask(1, 0, [true, true])];
    }
  }

  /** The bound is exact: 2 to the 32 tasks on the first of two CPUs count as none, and the next one joins
      them although the second queue is empty. */
  lemma ChoiceFailsAtTheBound() returns (es: seq<Event>)
    ensures After(Start(2), es).Some?
    ensures var m := After(Start(2), es).value;
      && |m.queues| == 2 && |m.tasks| == 0x1_0000_0000
      && !LeastLoaded(m, [true, true], 2, MinLoad(m, [true, true], 2).0)
  {
    es := AfterCreates(0x1_0000_0000);
    hide After;
    var m := After(Start(2), es).value;
    var online := [true, true];
    assert MinLoad(m, online, 0) == (0, -1);
    assert MinLoad(m, online, 1) == (0, 0);
    assert MinLoad(m, online, 2) == (0, 0);
    assert online[0] && online[1];
  }

  /** Without migrations every length is right, if it was. */
  lemma {:induction false} NoMovesNoDepartures(m: Machine, es: seq<Event>, c: nat)
    requires m.WellFormed() && forall e :: e in es ==> !e.Move?
    ensures NetDepartures(m, es, c) == 0
  {
    if es != [] {
      NoMovesNoDepartures(m, es[..|es| - 1], c);
    }
  }

  /** What is picked was running, and has counter left. */
  lemma PicksRunning(m: Machine, c: nat)
    requires m.WellFormed() && c < |m.queues| && S.PickEnds(OnQueue(m, c))
    ensures Picked(m, c).None? <==> forall id :: id in m.queues[c].list ==> m.tasks[id].task.state != S.RUNNING
    ensures Picked(m, c).Some? ==> m.tasks[Picked(m, c).value].task.state == S.RUNNING
  {
    var q := OnQueue(m, c);
    S.PickIsRight(q);
    forall id | id in m.queues[c].list && m.tasks[id].task.state == S.RUNNING ensures Picked(m, c).Some? {
      var k :| 0 <= k < |m.queues[c].list| && m.queues[c].list[k] == id;
      assert q[k].Runs();
    }
  }

  /** Task `id` is on queue `c` and could run. */
  predicate RunsOn(m: Machine, c: nat, id: nat)
    requires c < |m.queues|
  {
    id < |m.tasks| && id in m.queues[c].list && m.tasks[id].task.state == S.RUNNING
  }

  /** What `schedule` makes current: the idle task if nothing on the queue runs, and otherwise a running task of the
      queue that has counter left, as much as any other. */
  lemma ScheduleIsExact(m: Machine, c: nat)
    requires m.WellFormed() && c < |m.queues| && S.PickEnds(OnQueue(m, c))
    ensures var m' := Schedule(m, c);
      && SameShape(m, m') && (m'.queues[c].current == IdleTask || m'.queues[c].current.Of?)
      && (m'.queues[c].current == IdleTask <==> forall id: nat :: !RunsOn(m, c, id))
      && (m'.queues[c].current.Of? ==> IsBest(m, m', c, m'.queues[c].current.id))
      && forall d :: 0 <= d < |m.queues| && d != c ==> m'.queues[d] == m.queues[d]
  {
    ScheduleKeepsShape(m, c);
    PicksRunning(m, c);
    hide RefilledTasks;
    if Picked(m, c).Some? {
      PickedIsBest(m, c);
    }
  }

  /** Task `next` runs on the queue, and has as much counter as any that does, and some. */
  ghost predicate IsBest(m: Machine, m': Machine, c: nat, next: nat)
    requires c < |m.queues| && |m'.tasks| == |m.tasks|
  {
    && RunsOn(m, c, next) && m'.tasks[next].task.counter != 0
    && forall id: nat :: RunsOn(m, c, id) ==>
         S.Unsigned(m'.tasks[id].task.counter) <= S.Unsigned(m'.tasks[next].task.counter)
  }

  lemma PickedIsBest(m: Machine, c: nat)
    requires m.WellFormed() && c < |m.queues| && S.PickEnds(OnQueue(m, c)) && Picked(m, c).Some?
    ensures |AfterPick(m, c).tasks| == |m.tasks| && IsBest(m, AfterPick(m, c), c, Picked(m, c).value)
  {
    var m', q := AfterPick(m, c), OnQueue(m, c);
    PickProjects(m, c);
    S.PickIsRight(q);
    S.CandidateIsLastMaximum(S.AfterPick(q));
    hide S.AfterPick;
    hide S.Candidate;
    hide S.PickEnds;
    hide RefilledTasks;
    forall id: nat | RunsOn(m, c, id)
      ensures S.Unsigned(m'.tasks[id].task.counter) <= S.Unsigned(m'.tasks[Picked(m, c).value].task.counter)
    {
      var k :| 0 <= k < |m.queues[c].list| && m.queues[c].list[k] == id;
      assert OnQueue(m', c)[k] == m'.tasks[id].task;
    }
  }

  /** What a tick does: it takes one from the counter of the current task, if that has any, and else it schedules. */
  lemma TickIsExact(m: Machine, c: nat)
    requires m.WellFormed() && c < |m.queues|
    ensures var current := m.queues[c].current;
      if current.Of? && m.tasks[current.id].task.counter != 0 then
        var m' := Tick(m, c);
        && m'.queues == m.queues && |m'.tasks| == |m.tasks|
        && (forall i :: 0 <= i < |m.tasks| && i != current.id ==> m'.tasks[i] == m.tasks[i])
        && m'.tasks[current.id].cpu == m.tasks[current.id].cpu
        && m'.tasks[current.id].task.state == m.tasks[current.id].task.state
        && m'.tasks[current.id].task.prio == m.tasks[current.id].task.prio
        && (m.tasks[current.id].task.counter > -0x8000_0000 ==>
              m'.tasks[current.id].task.counter == m.tasks[current.id].task.counter - 1)
      else Tick(m, c) == Schedule(m, c)
  {
    hide Schedule;
  }

  /** Counters change only if something on the queue runs and all that does has none left: then each of these gets
      its priority. */
  lemma ScheduleRefillsExactly(m: Machine, c: nat, id: nat)
    requires m.WellFormed() && c < |m.queues| && id < |m.tasks|
    ensures |Schedule(m, c).tasks| == |m.tasks|
    ensures Schedule(m, c).tasks[id].task.counter ==
      if RunsOn(m, c, id) && AllUsedUp(m, c) then m.tasks[id].task.prio else m.tasks[id].task.counter
  {
    hide S.Spent;
    hide S.Candidate;
    hide OnQueue;
    hide AllUsedUp;
    SpentIsUsedUp(m, c);
  }

  lemma SpentIsUsedUp(m: Machine, c: nat)
    requires m.WellFormed() && c < |m.queues|
    ensures S.Spent(OnQueue(m, c)) <==> (exists id: nat :: RunsOn(m, c, id)) && AllUsedUp(m, c)
  {
    hide S.Spent;
    hide OnQueue;
    hide Machine.WellFormed;
    var q := OnQueue(m, c);
    S.SpentMeansAllSpent(q);
    if S.Spent(q) {
      var j :| 0 <= j < |q| && q[j].Runs();
      OnQueueAt(m, c, j);
      forall i: nat | RunsOn(m, c, i) ensures m.tasks[i].task.counter == 0 {
        var k :| 0 <= k < |m.queues[c].list| && m.queues[c].list[k] == i;
        OnQueueAt(m, c, k);
      }
    } else if id: nat :| RunsOn(m, c, id) {
      var k :| 0 <= k < |m.queues[c].list| && m.queues[c].list[k] == id;
      OnQueueAt(m, c, k);
      var j :| 0 <= j < |q| && q[j].Runs() && q[j].counter != 0;
      OnQueueAt(m, c, j);
    }
  }

  lemma OnQueueAt(m: Machine, c: nat, k: nat)
    requires m.WellFormed() && c < |m.queues| && k < |m.queues[c].list|
    ensures m.queues[c].list[k] < |m.tasks| && OnQueue(m, c)[k] == m.tasks[m.queues[c].list[k]].task
    ensures OnQueue(m, c)[k].Runs() <==> RunsOn(m, c, m.queues[c].list[k])
  {
  }

  ghost predicate AllUsedUp(m: Machine, c: nat)
    requires c < |m.queues|
  {
    forall i: nat :: RunsOn(m, c, i) ==> m.tasks[i].task.counter == 0
  }

  lemma ScheduleNeverPicksKilled(m: Machine, c: nat, id: nat)
    requires m.WellFormed() && c < |m.queues| && S.PickEnds(OnQueue(m, c))
    requires id < |m.tasks| && m.tasks[id].task.state == S.KILLED
    ensures Schedule(m, c).queues[c].current != Of(id)
    ensures forall d :: 0 <= d < |m.queues| && d != c ==> Schedule(m, c).queues[d] == m.queues[d]
  {
    hide RefilledTasks;
    hide S.Spent;
    hide S.PickEnds;
    PicksRunning(m, c);
  }

  lemma TickNeverPicksKilled(m: Machine, c: nat, id: nat)
    requires m.WellFormed() && Enabled(m, TimerTick(c))
    requires id < |m.tasks| && m.tasks[id].task.state == S.KILLED
    ensures SameShape(m, Tick(m, c))
    ensures forall d :: 0 <= d < |m.queues| && m.queues[d].current != Of(id) ==> Tick(m, c).queues[d].current != Of(id)
  {
    hide Schedule;
    hide S.PickEnds;
    TickKeepsShape(m, c);
    if !Charging(m, c) {
      ScheduleNeverPicksKilled(m, c, id);
    }
  }

  /** A killed task stays killed, and no CPU switches to it. */
  lemma StepNeverPicksKilled(m: Machine, e: Event, id: nat)
    requires m.WellFormed() && Enabled(m, e) && id < |m.tasks| && m.tasks[id].task.state == S.KILLED
    ensures var m' := Step(m, e);
      && id < |m'.tasks| && m'.tasks[id].task.state == S.KILLED && |m'.queues| == |m.queues|
      && forall c :: 0 <= c < |m.queues| && m.queues[c].current != Of(id) ==> m'.queues[c].current != Of(id)
  {
    hide Schedule;
    hide Tick;
    hide Charging;
    hide S.PickEnds;
    match e {
      case TimerTick(c) =>
        TickNeverPicksKilled(m, c, id);
      case Yield(c) =>
        ScheduleKeepsShape(m, c);
        ScheduleNeverPicksKilled(m, c, id);
      case Exit(c, x) =>
        KilledIsWellFormed(m, x);
        ScheduleKeepsShape(Killed(m, x), c);
        ScheduleNeverPicksKilled(Killed(m, x), c, id);
      case _ =>
    }
  }

  /** In any run, a CPU that does not run a killed task never runs it again. */
  lemma {:induction false} KilledForever(m: Machine, es: seq<Event>, id: nat, c: nat)
    requires m.WellFormed() && After(m, es).Some?
    requires id < |m.tasks| && m.tasks[id].task.state == S.KILLED
    requires c < |m.queues| && m.queues[c].current != Of(id)
    ensures var m' := After(m, es).value;
      && id < |m'.tasks| && m'.tasks[id].task.state == S.KILLED
      && c < |m'.queues| && m'.queues[c].current != Of(id)
  {
    hide Step;
    hide Enabled;
    if es != [] {
      KilledForever(m, es[..|es| - 1], id, c);
      StepNeverPicksKilled(After(m, es[..|es| - 1]).value, es[|es| - 1], id);
    }
  }

  /** `task_exit` takes its task off the CPU at once. */
  lemma ExitLeavesTheCpu(m: Machine, c: nat, id: nat)
    requires m.WellFormed() && Enabled(m, Exit(c, id))
    ensures Step(m, Exit(c, id)).queues[c].current != Of(id)
    ensures Step(m, Exit(c, id)).tasks[id].task.state == S.KILLED
  {
    hide Schedule;
    hide S.PickEnds;
    KilledIsWellFormed(m, id);
    ScheduleKeepsShape(Killed(m, id), c);
    ScheduleNeverPicksKilled(Killed(m, id), c, id);
  }
}
