/** Fairness on several CPUs: the queue of each CPU, seen by itself, behaves as the single queue of
    `Scheduler`, however the timer ticks and the voluntary scheduling of the CPUs interleave. */
module Fairness {
  import opened Wrappers
  import S = Scheduler
  import opened RunQueues

  /** Every CPU runs a task of its own queue, or none of them. */
  ghost predicate Own(m: Machine) {
    forall c :: 0 <= c < |m.queues| ==> OwnCurrent(m.queues[c])
  }

  predicate OwnCurrent(rq: Rq) { rq.current.Of? ==> rq.current.id in rq.list }

  function IndexOf(s: seq<nat>, x: nat): (k: nat)
    requires x in s
    ensures k < |s| && s[k] == x
  {
    if s[0] == x then 0 else 1 + IndexOf(s[1..], x)
  }

  /** One queue by itself: tasks by position instead of by number. */
  ghost function QueueOf(m: Machine, c: nat): S.Queue
    requires m.WellFormed() && Own(m) && c < |m.queues|
  {
    S.Queue(OnQueue(m, c), match m.queues[c].current
      case Nobody => S.Nothing
      case IdleTask => S.Idle
      case Of(id) => S.Running(IndexOf(m.queues[c].list, id)))
  }

  lemma ScheduleProjects(m: Machine, c: nat)
    requires m.WellFormed() && Own(m) && c < |m.queues|
    ensures SameShape(m, Schedule(m, c)) && Schedule(m, c).WellFormed() && Own(Schedule(m, c))
    ensures QueueOf(Schedule(m, c), c) == S.Schedule(QueueOf(m, c))
  {
    hide S.AfterPick;
    hide S.Candidate;
    hide AfterPick;
    PickProjects(m, c);
    ScheduleKeepsShape(m, c);
    assert OnQueue(Schedule(m, c), c) == OnQueue(AfterPick(m, c), c);
  }

  /** A tick of CPU `c` is a tick of its queue. */
  lemma TickProjects(m: Machine, c: nat)
    requires m.WellFormed() && Own(m) && c < |m.queues|
    ensures SameShape(m, Tick(m, c)) && Tick(m, c).WellFormed() && Own(Tick(m, c))
    ensures QueueOf(Tick(m, c), c) == S.Tick(QueueOf(m, c))
  {
    hide Schedule;
    hide S.Schedule;
    TickKeepsShape(m, c);
    ScheduleProjects(m, c);
  }

  /** A choice leaves the queues of the other CPUs alone, */
  lemma ScheduleIsLocal(m: Machine, c: nat, d: nat)
    requires m.WellFormed() && Own(m) && c < |m.queues| && d < |m.queues| && d != c
    ensures Schedule(m, c).WellFormed() && Own(Schedule(m, c)) && QueueOf(Schedule(m, c), d) == QueueOf(m, d)
  {
    hide S.AfterPick;
    hide S.Candidate;
    hide S.Spent;
    ScheduleProjects(m, c);
    PickProjects(m, c);
    assert Schedule(m, c).queues[d] == m.queues[d];
    forall k | 0 <= k < |m.queues[d].list| ensures OnQueue(Schedule(m, c), d)[k] == OnQueue(m, d)[k] {
      assert m.tasks[m.queues[d].list[k]].cpu == d;
    }
  }

  /** and so does a tick. */
  lemma TickIsLocal(m: Machine, c: nat, d: nat)
    requires m.WellFormed() && Own(m) && c < |m.queues| && d < |m.queues| && d != c
    ensures Tick(m, c).WellFormed() && Own(Tick(m, c)) && QueueOf(Tick(m, c), d) == QueueOf(m, d)
  {
    hide Schedule;
    hide S.Schedule;
    TickProjects(m, c);
    ScheduleIsLocal(m, c, d);
    if m.queues[c].current.Of? && m.tasks[m.queues[c].current.id].task.counter != 0 {
      assert OwnCurrent(m.queues[c]);
      forall k | 0 <= k < |m.queues[d].list| ensures OnQueue(Tick(m, c), d)[k] == OnQueue(m, d)[k] {
        assert m.tasks[m.queues[d].list[k]].cpu == d;
      }
    }
  }

  /** No task is created, moved or killed. */
  ghost predicate FixedTasks(es: seq<Event>) {
    forall e :: e in es ==> e.TimerTick? || e.Yield?
  }

  /** What CPU `c` does in a run. */
  function ActsOf(es: seq<Event>, c: nat): seq<S.Act> {
    if es == [] then []
    else
      var before, e := ActsOf(es[..|es| - 1], c), es[|es| - 1];
      if e == TimerTick(c) then before + [S.OnTick] else if e == Yield(c) then before + [S.OnYield] else before
  }

  function TicksOf(es: seq<Event>, c: nat): nat { S.TicksIn(ActsOf(es, c)) }

  lemma StepProjects(m: Machine, e: Event, c: nat)
    requires m.WellFormed() && Own(m) && c < |m.queues| && Enabled(m, e) && (e.TimerTick? || e.Yield?)
    ensures SameShape(m, Step(m, e)) && Step(m, e).WellFormed() && Own(Step(m, e))
    ensures QueueOf(Step(m, e), c) ==
      if e.c != c then QueueOf(m, c) else S.Do(QueueOf(m, c), if e.TimerTick? then S.OnTick else S.OnYield)
  {
    hide Tick;
    hide Schedule;
    hide S.Tick;
    hide S.Schedule;
    hide Own;
    hide QueueOf;
    if e.TimerTick? {
      TickProjects(m, e.c);
      if e.c != c {
        TickIsLocal(m, e.c, c);
      }
    } else {
      ScheduleProjects(m, e.c);
      if e.c != c {
        ScheduleIsLocal(m, e.c, c);
      }
    }
  }

  /** In any interleaving each queue sees what its own CPU does only. */
  lemma {:induction false} InterleavingProjects(m: Machine, es: seq<Event>, c: nat)
    requires m.WellFormed() && Own(m) && c < |m.queues|
    requires FixedTasks(es) && After(m, es).Some?
    ensures var m' := After(m, es).value;
      && Own(m') && |m'.queues| == |m.queues| && |m'.tasks| == |m.tasks| && m'.queues[c].list == m.queues[c].list
      && QueueOf(m', c) == S.DoAll(QueueOf(m, c), ActsOf(es, c))
  {
    hide S.Do;
    hide Own;
    hide QueueOf;
    hide Step;
    hide Enabled;
    hide Machine.WellFormed;
    if es != [] {
      var n := |es| - 1;
      assert es[n] in es;
      InterleavingProjects(m, es[..n], c);
      StepProjects(After(m, es[..n]).value, es[n], c);
    }
  }

  /** The premise of fairness lasts: counters of running tasks stay between 0 and the priority. */
  lemma QueuesStaySane(m: Machine, es: seq<Event>, c: nat)
    requires m.WellFormed() && Own(m) && c < |m.queues| && S.Sane(QueueOf(m, c))
    requires FixedTasks(es) && After(m, es).Some?
    ensures c < |After(m, es).value.queues| && Own(After(m, es).value) && S.Sane(QueueOf(After(m, es).value, c))
  {
    hide S.Sane;
    hide QueueOf;
    hide Own;
    InterleavingProjects(m, es, c);
    S.DoAllKeepsSane(QueueOf(m, c), ActsOf(es, c));
  }

  /** Some prefix of the run holds any smaller number of acts of CPU `c`. */
  lemma {:induction false} PrefixWith(es: seq<Event>, c: nat, k: nat) returns (n: nat)
    requires k <= |ActsOf(es, c)|
    ensures n <= |es| && ActsOf(es[..n], c) == ActsOf(es, c)[..k]
  {
    if k == |ActsOf(es, c)| {
      n := |es|;
      assert es[..n] == es;
    } else {
      n := PrefixWith(es[..|es| - 1], c, k);
      assert es[..|es| - 1][..n] == es[..n];
    }
  }

  /** No starvation on any CPU: once CPU `c` has ticked for two epochs, whatever voluntary calls it made and
      whatever the other CPUs did in between, every running task of its queue has been current there. */
  lemma EveryTaskRuns(m: Machine, es: seq<Event>, c: nat, id: nat) returns (n: nat)
    requires m.WellFormed() && Own(m) && c < |m.queues| && S.Sane(QueueOf(m, c))
    requires id in m.queues[c].list && m.tasks[id].task.Runs()
    requires FixedTasks(es) && After(m, es).Some?
    requires TicksOf(es, c) >= 2 * S.Epoch(OnQueue(m, c), |OnQueue(m, c)|)
    ensures n <= |es| && After(m, es[..n]).Some? && c < |After(m, es[..n]).value.queues|
    ensures After(m, es[..n]).value.queues[c].current == Of(id)
  {
    hide S.Sane;
    hide S.Epoch;
    hide S.DoAll;
    hide Step;
    var i := IndexOf(m.queues[c].list, id);
    var k := S.NoStarvation(QueueOf(m, c), ActsOf(es, c), i);
    n := PrefixWith(es, c, k);
    PrefixRuns(m, es, n);
    InterleavingProjects(m, es[..n], c);
  }

  /** How many ticks of a run are charged to task `id` on CPU `c`. */
  ghost function ChargesOn(m: Machine, es: seq<Event>, c: nat, id: nat): nat
    requires m.WellFormed()
  {
    if es == [] then 0
    else
      var n := |es| - 1;
      ChargesOn(m, es[..n], c, id) + match After(m, es[..n])
        case None => 0
        case Some(x) => if es[n] == TimerTick(c) && ChargesHere(x, c, id) then 1 else 0
  }

  predicate ChargesHere(m: Machine, c: nat, id: nat) {
    c < |m.queues| && m.queues[c].current == Of(id) && id < |m.tasks| && m.tasks[id].task.counter != 0
  }

  lemma {:induction false} ChargesProject(m: Machine, es: seq<Event>, c: nat, id: nat)
    requires m.WellFormed() && Own(m) && c < |m.queues| && id in m.queues[c].list
    requires FixedTasks(es) && After(m, es).Some?
    ensures ChargesOn(m, es, c, id) == S.Charged(QueueOf(m, c), ActsOf(es, c), IndexOf(m.queues[c].list, id))
  {
    hide S.DoAll;
    hide Step;
    hide Enabled;
    if es != [] {
      var n := |es| - 1;
      ChargesProject(m, es[..n], c, id);
      InterleavingProjects(m, es[..n], c);
      ChargesHereProjects(After(m, es[..n]).value, c, id);
    }
  }

  lemma ChargesHereProjects(m: Machine, c: nat, id: nat)
    requires m.WellFormed() && Own(m) && c < |m.queues| && id in m.queues[c].list
    ensures ChargesHere(m, c, id) <==> S.ChargesTask(QueueOf(m, c), IndexOf(m.queues[c].list, id))
  {
  }

  /** Fair shares on every CPU: from one refill of its queue to the next, whatever the mix of ticks and
      voluntary calls on all CPUs, each running task is charged exactly its priority. */
  lemma EveryTaskGetsItsPriority(m: Machine, es: seq<Event>, c: nat, id: nat)
    requires m.WellFormed() && Own(m) && c < |m.queues| && id in m.queues[c].list && m.tasks[id].task.Runs()
    requires FixedTasks(es) && After(m, es).Some?
    requires QueueOf(m, c) == S.Refilled(OnQueue(m, c)) && S.Sane(QueueOf(m, c))
    requires S.NoRefill(QueueOf(m, c), ActsOf(es, c)) && S.Spent(S.DoAll(QueueOf(m, c), ActsOf(es, c)).tasks)
    ensures ChargesOn(m, es, c, id) == m.tasks[id].task.prio
  {
    hide S.Sane;
    hide S.NoRefill;
    hide S.Spent;
    hide S.DoAll;
    hide S.Refilled;
    hide S.Charged;
    hide ActsOf;
    var i := IndexOf(m.queues[c].list, id);
    ChargesProject(m, es, c, id);
    S.ChargedItsPriority(OnQueue(m, c), ActsOf(es, c), i);
  }

  lemma CreateIsOwn(m: Machine, prio: S.i32, c: nat)
    requires m.WellFormed() && Own(m) && c < |m.queues|
    ensures Own(Create(m, prio, c))
  {
    hide Machine.WellFormed;
    var m' := Create(m, prio, c);
    forall d | 0 <= d < |m'.queues| ensures OwnCurrent(m'.queues[d]) {
      assert OwnCurrent(m.queues[d]);
    }
  }

  lemma CreateOnQueue(m: Machine, prio: S.i32, c: nat, d: nat)
    requires m.WellFormed() && c < |m.queues| && d < |m.queues|
    ensures Create(m, prio, c).WellFormed()
    ensures OnQueue(Create(m, prio, c), d) == OnQueue(m, d) + if d == c then [S.Task(S.RUNNING, prio, prio)] else []
  {
    CreateIsWellFormed(m, prio, c);
    hide Machine.WellFormed;
    var m' := Create(m, prio, c);
    var q, q' := OnQueue(m, d), OnQueue(m', d);
    forall k | 0 <= k < |q| ensures q'[k] == q[k] {
      assert m'.queues[d].list[k] == m.queues[d].list[k];
    }
  }

  /** A new task goes to the end of its queue and changes nothing else. */
  lemma CreateExtends(m: Machine, prio: S.i32, c: nat, d: nat)
    requires m.WellFormed() && Own(m) && c < |m.queues| && d < |m.queues|
    ensures Create(m, prio, c).WellFormed() && Own(Create(m, prio, c))
    ensures var q, q' := QueueOf(m, d), QueueOf(Create(m, prio, c), d);
      q' == q.(tasks := q.tasks + if d == c then [S.Task(S.RUNNING, prio, prio)] else [])
  {
    hide Machine.WellFormed;
    hide OnQueue;
    CreateOnQueue(m, prio, c, d);
    CreateIsOwn(m, prio, c);
    if m.queues[d].current.Of? {
      assert OwnCurrent(m.queues[d]);
      CreateKeepsCurrent(m.queues[d].list, |m.tasks|, m.queues[d].current.id);
    }
  }

  /** Tasks created with a positive priority satisfy the premise. */
  lemma CreateKeepsSane(m: Machine, prio: S.i32, c: nat, d: nat)
    requires m.WellFormed() && Own(m) && c < |m.queues| && d < |m.queues| && S.Sane(QueueOf(m, d)) && prio > 0
    ensures Create(m, prio, c).WellFormed() && Own(Create(m, prio, c)) && S.Sane(QueueOf(Create(m, prio, c), d))
  {
    hide Create;
    hide QueueOf;
    hide Own;
    CreateExtends(m, prio, c, d);
  }

  lemma {:induction false} CreateKeepsCurrent(s: seq<nat>, x: nat, id: nat)
    requires id in s
    ensures IndexOf(s + [x], id) == IndexOf(s, id)
  {
    if s[0] != id {
      assert (s + [x])[1..] == s[1..] + [x];
      CreateKeepsCurrent(s[1..], x, id);
    }
  }
}
