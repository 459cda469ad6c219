/** The pointer code of kernel/task.c: task structures linked into the circular lists of their run
    queues. Every operation is proved to do what `RunQueues` says. */
module TaskKernel {
  import opened Wrappers
  import opened List
  import opened RunQueues
  import S = Scheduler

  /** `struct task_struct`, as far as scheduling goes. */
  class TaskStruct {
    var state: int
    var prio: S.i32
    var counter: S.i32
    var cpu: int
    const list: ListHead<nat>    // its owner is the task's number

    /** `__create_task` */
    constructor (id: nat, prio: S.i32, cpu: int)
      ensures Info() == RunQueues.Info(S.Task(S.RUNNING, prio, prio), cpu)
      ensures fresh(list) && list.owner == Some(id)
    {
      this.prio := prio;
      counter := prio;
      this.cpu := cpu;
      state := S.RUNNING;
      list := new ListHead(Some(id));
    }

    function Info(): RunQueues.Info
      reads this
    {
      RunQueues.Info(S.Task(state, prio, counter), cpu)
    }
  }

  /** `struct rq` */
  class RunQueue {
    const head: ListHead<nat>
    var length: nat
    var current: Current
    ghost var entries: seq<ListHead<nat>>

    /** `rq_init` */
    constructor ()
      ensures fresh(head) && head.owner == None && IsList(head, entries)
      ensures length == 0 && current == Nobody && entries == []
    {
      head := new ListHead(None);
      length, current, entries := 0, Nobody, [];
    }

    /** The head and the entries of the list. */
    ghost function Nodes(): set<ListHead<nat>>
      reads this
    {
      {head} + set n | n in entries
    }

    /** A node goes to the end, and is counted. */
    method Append(node: ListHead<nat>)
      requires IsList(head, entries) && node !in Nodes()
      modifies this, node, Nodes()
      ensures IsList(head, entries) && entries == old(entries) + [node]
      ensures length == old(length) + 1 && current == old(current)
    {
      Ends(head, entries);
      hide IsList;
      AddTail(node, head, entries);
      length := length + 1;
      entries := entries + [node];
    }

    /** The structure represents `rq`: its list holds the entries of the tasks in that order. */
    ghost predicate Represents(rq: Rq)
      reads this, head, entries
    {
      && length == rq.length && current == rq.current
      && head.owner == None && IsList(head, entries)
      && |entries| == |rq.list| && forall k :: 0 <= k < |entries| ==> entries[k].owner == Some(rq.list[k])
    }
  }

  class Kernel {
    var tasks: seq<TaskStruct>    // by number; a list entry leads to its task as with container_of
    const queues: seq<RunQueue>   // `rq_list`

    ghost var view: Machine
    ghost var nodes: set<ListHead<nat>>

    /** `task_init`, with `rq_init` for each CPU; the idle tasks carry no state here. */
    constructor (cpus: nat)
      ensures Valid() && view == Start(cpus)
      ensures fresh(queues) && fresh(nodes)
    {
      var rqs: seq<RunQueue> := [];
      for i := 0 to cpus
        invariant |rqs| == i && fresh(rqs)
        invariant forall c :: 0 <= c < i ==> rqs[c].Represents(Rq(0, [], Nobody)) && fresh(rqs[c].head)
        invariant forall c, d :: 0 <= c < d < i ==> rqs[c] != rqs[d] && rqs[c].head != rqs[d].head
      {
        var rq := new RunQueue();
        rqs := rqs + [rq];
      }
      queues, tasks := rqs, [];
      view := Start(cpus);
      nodes := set c | 0 <= c < |rqs| :: rqs[c].head;
    }

    /** Queue `c` is as the view says, and its entries are those of the tasks. */
    ghost predicate QueueValid(c: nat)
      reads this, queues, nodes
    {
      && c < |queues| && c < |view.queues|
      && queues[c].head in nodes && (forall k :: 0 <= k < |queues[c].entries| ==> queues[c].entries[k] in nodes)
      && queues[c].Represents(view.queues[c])
      && forall k :: 0 <= k < |queues[c].entries| ==>
        view.queues[c].list[k] < |tasks| && queues[c].entries[k] == tasks[view.queues[c].list[k]].list
    }

    ghost predicate TaskValid(i: nat)
      reads this, tasks
    {
      && i < |tasks| && i < |view.tasks| && tasks[i].Info() == view.tasks[i]
      && tasks[i].list in nodes && tasks[i].list.owner == Some(i)
    }

    ghost predicate Valid()
      reads this, tasks, queues, nodes
    {
      && |tasks| == |view.tasks| && |queues| == |view.queues| && view.WellFormed()
      && (forall i :: 0 <= i < |tasks| ==> TaskValid(i))
      && (forall c :: 0 <= c < |queues| ==> QueueValid(c))
      && (forall c, d :: 0 <= c < d < |queues| ==> queues[c] != queues[d] && queues[c].head != queues[d].head)
    }

    /** What following the list pointers of queue `c` finds. */
    lemma Position(c: nat, k: nat)
      requires Valid() && c < |queues| && k <= |queues[c].entries|
      ensures c < |view.queues| && view.WellFormed()
      ensures |queues[c].entries| == |OnQueue(view, c)| == |view.queues[c].list|
      ensures queues[c].head.next == if queues[c].entries == [] then queues[c].head else queues[c].entries[0]
      ensures k < |queues[c].entries| ==>
        var n, id := queues[c].entries[k], view.queues[c].list[k];
        && n != queues[c].head && n.owner == Some(id) && id < |tasks| && id < |view.tasks|
        && tasks[id].Info() == view.tasks[id] && tasks[id].Info().task == OnQueue(view, c)[k]
        && n.next == if k + 1 < |queues[c].entries| then queues[c].entries[k + 1] else queues[c].head
    {
      assert QueueValid(c);
      if k < |queues[c].entries| {
        assert TaskValid(view.queues[c].list[k]);
      }
    }

    /** One pass over the list: the last running task with the largest counter, or what the candidate was
        before. */
    method Scan(c: nat, before: Option<nat>) returns (cand: Option<nat>)
      requires Valid() && c < |queues|
      ensures c < |view.queues| && view.WellFormed()
      ensures cand == var best := S.Candidate(OnQueue(view, c));
        if best.None? then before else Some(view.queues[c].list[best.value])
    {
      hide Valid;
      hide Machine.WellFormed;
      hide IsList;
      hide OnQueue;
      hide S.Candidate;
      Position(c, 0);
      var rq := queues[c];
      ghost var q := OnQueue(view, c);
      ghost var k := 0;
      var maxCounter := 0;
      cand := before;
      var pos := rq.head.next;
      while pos != rq.head
        invariant k <= |rq.entries| && pos == if k < |rq.entries| then rq.entries[k] else rq.head
        invariant var best := S.Candidate(q[..k]);
          && cand == (if best.None? then before else Some(view.queues[c].list[best.value]))
          && maxCounter == if best.None? then 0 else S.Unsigned(q[best.value].counter)
        decreases |rq.entries| - k
      {
        Position(c, k);
        S.CandidateStep(q, k);
        var task := tasks[pos.owner.value];
        if task.state == S.RUNNING && S.Unsigned(task.counter) >= maxCounter {
          maxCounter := S.Unsigned(task.counter);
          cand := Some(pos.owner.value);
        }
        k := k + 1;
        pos := pos.next;
      }
      Position(c, k);
      assert q[..k] == q;
    }

    method SetCounter(id: nat, counter: S.i32)
      requires Valid() && id < |tasks|
      modifies this`view, tasks[id]
      ensures Valid() && id < |old(view).tasks|
      ensures view == SetTask(old(view), id, old(view).tasks[id].task.(counter := counter))
    {
      hide IsList;
      tasks[id].counter := counter;
      view := SetTask(view, id, view.tasks[id].task.(counter := counter));
      SameShapeIsWellFormed(old(view), view);
      forall i | 0 <= i < |tasks| ensures TaskValid(i) {
        assert old(TaskValid(i)) && old(TaskValid(id));
      }
      forall c | 0 <= c < |queues| ensures QueueValid(c) {
        assert old(QueueValid(c));
      }
    }

    /** The second loop of `pick_next_task`: every running task gets its priority as its counter. */
    method RefillAll(c: nat)
      requires Valid() && c < |queues|
      modifies this`view, tasks
      ensures Valid() && c < |old(view).queues| && old(view).WellFormed()
      ensures view == old(view).(tasks := RefilledTasks(old(view), c))
    {
      hide IsList;
      hide Valid;
      hide Machine.WellFormed;
      hide OnQueue;
      hide RefilledTasks;
      hide RefillEach;
      Position(c, 0);
      var rq := queues[c];
      ghost var k, was, list := 0, view, view.queues[c].list;
      RefillEachIsAll(was, c);
      var pos := rq.head.next;
      while pos != rq.head
        invariant Valid() && k <= |rq.entries| && pos == if k < |rq.entries| then rq.entries[k] else rq.head
        invariant view == was.(tasks := RefillEach(was.tasks, list[..k]))
        decreases |rq.entries| - k
      {
        Position(c, k);
        var id := pos.owner.value;
        RefillEachStep(was.tasks, list, k);
        if tasks[id].state == S.RUNNING {
          SetCounter(id, tasks[id].prio);
        }
        k := k + 1;
        pos := pos.next;
      }
      Position(c, k);
      assert list[..k] == list;
    }

    /** The test of `pick_next_task` for another pass, read off the structures. */
    lemma AnotherPass(c: nat, cand: Option<nat>)
      requires Valid() && c < |queues| && c < |view.queues|
      requires cand == var best := S.Candidate(OnQueue(view, c));
        if best.None? then None else Some(view.queues[c].list[best.value])
      ensures cand.Some? ==> cand.value < |tasks|
      ensures S.Spent(OnQueue(view, c)) <==> !Empty(queues[c].head) && cand.Some? && tasks[cand.value].counter == 0
    {
      hide S.Candidate;
      hide Machine.WellFormed;
      var best := S.Candidate(OnQueue(view, c));
      Position(c, 0);
      if best.Some? {
        Position(c, best.value);
        assert QueueValid(c);
      }
    }

    /** `pick_next_task`, where its `goto` ends. */
    method PickNextTask(c: nat) returns (cand: Option<nat>)
      requires Valid() && c < |queues| && c < |view.queues| && S.PickEnds(OnQueue(view, c))
      modifies this`view, tasks
      ensures Valid() && c < |old(view).queues| && old(view).WellFormed()
      ensures view == AfterPick(old(view), c) && cand == Picked(old(view), c)
    {
      hide IsList;
      hide Valid;
      hide Machine.WellFormed;
      hide OnQueue;
      hide RefilledTasks;
      hide S.Candidate;
      hide S.Spent;
      hide S.Refill;
      ghost var was := view;
      ghost var refilled := false;
      Position(c, 0);
      PickProjects(was, c);
      cand := Scan(c, None);
      AnotherPass(c, cand);
      while !Empty(queues[c].head) && cand.Some? && tasks[cand.value].counter == 0
        invariant Valid() && view.WellFormed() && view == if refilled then AfterPick(was, c) else was
        invariant refilled ==> S.Spent(OnQueue(was, c))
        invariant cand == var best := S.Candidate(OnQueue(view, c));
          if best.None? then None else Some(view.queues[c].list[best.value])
        invariant cand.Some? ==> cand.value < |tasks|
        invariant S.Spent(OnQueue(view, c)) <==> !Empty(queues[c].head) && cand.Some? && tasks[cand.value].counter == 0
        decreases !refilled
      {
        refilled := true;
        RefillAll(c);
        S.RefillHasCandidate(OnQueue(was, c));
        cand := Scan(c, cand);
        AnotherPass(c, cand);
      }
    }

    /** `rq->current = next` */
    method SetRunning(c: nat, next: Current)
      requires Valid() && c < |queues| && view.Known(next)
      modifies this`view, queues[c]
      ensures Valid() && c < |old(view).queues| && view == SetCurrent(old(view), c, next)
      ensures queues[c].entries == old(queues[c].entries)
    {
      hide IsList;
      queues[c].current := next;
      view := SetCurrent(view, c, next);
      SameShapeIsWellFormed(old(view), view);
      forall i | 0 <= i < |tasks| ensures TaskValid(i) {
        assert old(TaskValid(i));
      }
      forall d | 0 <= d < |queues| ensures QueueValid(d) {
        assert old(QueueValid(d));
      }
    }

    /** `schedule` on CPU `c`, with `context_switch`: a task that is picked again stays. */
    method Schedule(c: nat)
      requires Valid() && c < |queues| && c < |view.queues| && S.PickEnds(OnQueue(view, c))
      modifies this`view, tasks, queues[c]
      ensures Valid() && c < |old(view).queues| && old(view).WellFormed()
      ensures view == RunQueues.Schedule(old(view), c)
      ensures view.queues[c].current == IdleTask <==> forall id: nat :: !RunsOn(old(view), c, id)
      ensures view.queues[c].current.Of? ==> IsBest(old(view), view, c, view.queues[c].current.id)
    {
      hide IsBest;
      hide RunsOn;
      hide S.PickEnds;
      hide IsList;
      hide OnQueue;
      hide AfterPick;
      hide Picked;
      assert QueueValid(c);
      var prev := queues[c].current;
      var cand := PickNextTask(c);
      PickProjects(old(view), c);
      ScheduleIsExact(old(view), c);
      var next := if cand.None? then IdleTask else Of(cand.value);
      if next != prev {
        SetRunning(c, next);
      } else {
        assert view.queues == view.queues[c := view.queues[c].(current := next)];
      }
    }

    /** `task_timer_tick` on CPU `c` */
    method TimerTick(c: nat)
      requires Valid() && c < |queues| && c < |view.queues| && (Charging(view, c) || S.PickEnds(OnQueue(view, c)))
      modifies this`view, tasks, queues[c]
      ensures Valid() && c < |old(view).queues| && old(view).WellFormed()
      ensures view == Tick(old(view), c)
    {
      hide IsList;
      hide OnQueue;
      hide RunQueues.Schedule;
      assert QueueValid(c);
      var current := queues[c].current;
      if current.Of? {
        assert TaskValid(current.id);
      }
      if current.Of? && tasks[current.id].counter != 0 {
        SetCounter(current.id, S.Decrement(tasks[current.id].counter));
      } else {
        Schedule(c);
      }
    }

    /** `task_exit`, run by CPU `c` */
    method TaskExit(c: nat, id: nat)
      requires Valid() && c < |queues| && id < |tasks| && Enabled(view, Exit(c, id))
      modifies this`view, tasks, queues[c]
      ensures Valid() && old(view).WellFormed() && Enabled(old(view), Exit(c, id))
      ensures view == Step(old(view), Exit(c, id))
    {
      hide IsList;
      hide OnQueue;
      hide S.PickEnds;
      hide RunQueues.Schedule;
      KilledIsWellFormed(view, id);
      tasks[id].state := S.KILLED;
      view := Killed(view, id);
      forall i | 0 <= i < |tasks| ensures TaskValid(i) {
        assert old(TaskValid(i)) && old(TaskValid(id));
      }
      forall d | 0 <= d < |queues| ensures QueueValid(d) {
        assert old(QueueValid(d));
      }
      Schedule(c);
    }

    /** `cpu_min_load` */
    method CpuMinLoad(online: seq<bool>) returns (minCpu: nat)
      requires Valid() && |online| == |queues|
      ensures |view.queues| == |online| && minCpu == MinLoad(view, online, |online|).0
    {
      hide IsList;
      hide Machine.WellFormed;
      var minLen: S.i32;
      minCpu, minLen := 0, -1;
      for i := 0 to |queues|
        invariant (minCpu, minLen) == MinLoad(view, online, i)
      {
        assert QueueValid(i);
        if online[i] && queues[i].length < S.Unsigned(minLen) {
          minCpu, minLen := i, LowInt(queues[i].length);
        }
      }
    }

    /** Two queues share no list node. */
    lemma QueuesApart(c: nat, d: nat)
      requires Valid() && c < |queues| && d < |queues| && c != d
      ensures Apart(queues[c].head, queues[c].entries, queues[d].head, queues[d].entries)
    {
      hide IsList;
      assert QueueValid(c) && QueueValid(d);
      forall i | 0 <= i < |queues[c].entries| ensures queues[c].entries[i] !in queues[d].entries {
        assert view.tasks[view.queues[c].list[i]].cpu == c;
      }
    }

    /** A queue whose nodes are left alone stays valid when others change. */
    twostate lemma OthersStayValid(new d: nat)
      requires old(Valid()) && d < |queues| && old(tasks) <= tasks && old(nodes) <= nodes
      requires d < |view.queues| && view.queues[d] == old(view.queues[d])
      requires unchanged(queues[d]) && unchanged(queues[d].head) && unchanged(old(queues[d].entries))
      ensures QueueValid(d)
    {
      assert old(QueueValid(d));
    }

    twostate lemma TasksGrow(new task: TaskStruct)
      requires old(Valid()) && tasks == old(tasks) + [task] && view.tasks == old(view.tasks) + [task.Info()]
      requires old(nodes) <= nodes && task.list in nodes && task.list.owner == Some(|old(tasks)|)
      requires unchanged(old(tasks))
      ensures forall i :: 0 <= i < |tasks| ==> TaskValid(i)
    {
      hide IsList;
      forall i | 0 <= i < |tasks| ensures TaskValid(i) {
        assert i < |old(tasks)| ==> old(TaskValid(i));
      }
    }

    /** A queue with one more entry at its end. */
    twostate lemma QueueGrows(new c: nat, new id: nat)
      requires old(QueueValid(c)) && old(tasks) <= tasks && old(nodes) <= nodes && c < |view.queues|
      requires id < |tasks| && tasks[id].list.owner == Some(id) && tasks[id].list in nodes
      requires queues[c].entries == old(queues[c].entries) + [tasks[id].list]
      requires view.queues[c] == Rq(queues[c].length, old(view.queues[c].list) + [id], queues[c].current)
      requires IsList(queues[c].head, queues[c].entries)
      ensures QueueValid(c)
    {
      hide IsList;
    }

    /** `create_task`: on the CPU asked for, or with -1 on the one with the least load. */
    method CreateTask(prio: S.i32, cpu: int, online: seq<bool>)
      requires Valid() && |online| == |queues| == |view.queues| && -1 <= cpu < |queues| && queues != []
      modifies this, queues, nodes
      ensures Valid() && Enabled(old(view), NewTask(prio, cpu, online))
      ensures view == Step(old(view), NewTask(prio, cpu, online))
      ensures |view.tasks| == |old(view).tasks| + 1
      ensures var joined := view.tasks[|old(view).tasks|].cpu;
        && (cpu >= 0 ==> joined == cpu)
        && (cpu == -1 && Comparable(old(view), online, |online|) ==> LeastLoaded(old(view), online, |online|, joined))
      ensures fresh(nodes - old(nodes)) && forall i :: 0 <= i < |tasks| ==> tasks[i] in old(tasks) || fresh(tasks[i])
    {
      hide IsList;
      hide Machine.WellFormed;
      hide Comparable;
      hide LeastLoaded;
      var task := new TaskStruct(|tasks|, prio, cpu);
      var c := cpu;
      if cpu == -1 {
        c := CpuMinLoad(online);
        task.cpu := c;
      }
      Enqueue(task, c);
      CreationIsExact(old(view), prio, cpu, online);
    }

    /** A new node is on no queue, and queue `c` shares nothing with the others. */
    lemma OtherQueues(node: ListHead<nat>, c: nat)
      requires Valid() && c < |queues| && node !in nodes
      ensures IsList(queues[c].head, queues[c].entries) && node !in queues[c].Nodes() && queues[c].Nodes() <= nodes
      ensures forall d :: 0 <= d < |queues| && d != c ==>
        queues[d] != queues[c] && queues[d].Nodes() !! queues[c].Nodes() && node !in queues[d].Nodes()
    {
      hide IsList;
      hide Machine.WellFormed;
      assert QueueValid(c);
      forall d | 0 <= d < |queues| && d != c
        ensures queues[d] != queues[c] && queues[d].Nodes() !! queues[c].Nodes() && node !in queues[d].Nodes()
      {
        NodesApart(c, d);
        assert QueueValid(d);
      }
    }

    /** The new task is known, and the queues are those of before but for the entry that was added. */
    twostate lemma Joined(new task: TaskStruct, new c: nat)
      requires old(Valid()) && c < |old(view).queues| && view == Create(old(view), task.prio, c)
      requires tasks == old(tasks) + [task] && nodes == old(nodes) + {task.list} && unchanged(old(tasks))
      requires task.list.owner == Some(|old(tasks)|) && task.Info() == Info(S.Task(S.RUNNING, task.prio, task.prio), c)
      requires queues[c].entries == old(queues[c].entries) + [task.list] && IsList(queues[c].head, queues[c].entries)
      requires queues[c].length == old(queues[c].length) + 1 && queues[c].current == old(queues[c].current)
      requires forall d :: 0 <= d < |queues| && d != c ==>
        unchanged(queues[d]) && unchanged(queues[d].head) && unchanged(old(queues[d].entries))
      ensures Valid()
    {
      hide IsList;
      hide Machine.WellFormed;
      CreateIsWellFormed(old(view), task.prio, c);
      TasksGrow(task);
      assert old(QueueValid(c));
      QueueGrows(c, |tasks| - 1);
      forall d | 0 <= d < |queues| && d != c ensures QueueValid(d) {
        OthersStayValid(d);
      }
    }

    /** The end of `create_task`: the new task joins a queue. */
    method Enqueue(task: TaskStruct, c: nat)
      requires Valid() && c < |queues| && task.list !in nodes
      requires task.list.owner == Some(|tasks|) && task.cpu == c && task.state == S.RUNNING && task.counter == task.prio
      modifies this, queues[c], task.list, nodes
      ensures Valid() && c < |old(view).queues| && view == Create(old(view), task.prio, c)
      ensures tasks == old(tasks) + [task] && nodes == old(nodes) + {task.list}
    {
      hide IsList;
      hide QueueValid;
      OtherQueues(task.list, c);
      queues[c].Append(task.list);
      view := Create(view, task.prio, c);
      tasks := tasks + [task];
      nodes := nodes + {task.list};
      Joined(task, c);
    }

    /** A queue with the entry at `k` gone. */
    twostate lemma QueueShrinks(new c: nat, k: nat)
      requires old(QueueValid(c)) && old(view.WellFormed()) && tasks == old(tasks) && nodes == old(nodes)
      requires c < |view.queues| && k < |old(queues[c].entries)|
      requires queues[c].entries == Without(old(queues[c].entries), k)
      requires view.queues[c] == Rq(queues[c].length, Without(old(view.queues[c].list), k), queues[c].current)
      requires IsList(queues[c].head, queues[c].entries)
      ensures QueueValid(c)
    {
      hide IsList;
    }

    /** Where a task is: at one place of the queue its `cpu` names. */
    lemma Whereabouts(id: nat) returns (from: nat, k: nat)
      requires Valid() && id < |tasks|
      ensures from == tasks[id].cpu == view.tasks[id].cpu < |queues| == |view.queues| && view.WellFormed()
      ensures QueueValid(from) && k < |view.queues[from].list| == |queues[from].entries|
      ensures view.queues[from].list[k] == id && queues[from].entries[k] == tasks[id].list
    {
      hide IsList;
      assert TaskValid(id);
      from := tasks[id].cpu;
      assert QueueValid(from);
      k :| 0 <= k < |view.queues[from].list| && view.queues[from].list[k] == id;
    }

    /** The list entry moves, and `cpu` with it. */
    method Relink(id: nat, from: nat, c: nat, ghost k: nat)
      requires Valid() && id < |tasks| && c < |queues| && from < |queues| && from != c
      requires k < |queues[from].entries| && queues[from].entries[k] == tasks[id].list
      modifies tasks[id], queues, nodes
      ensures tasks[id].cpu == c && tasks[id].Info().task == old(tasks[id].Info().task)
      ensures IsList(queues[from].head, queues[from].entries) && IsList(queues[c].head, queues[c].entries)
      ensures queues[from].entries == Without(old(queues[from].entries), k)
      ensures queues[c].entries == old(queues[c].entries) + [tasks[id].list]
      ensures forall d :: 0 <= d < |queues| ==>
        queues[d].length == old(queues[d].length) && queues[d].current == old(queues[d].current)
      ensures forall d :: 0 <= d < |queues| && d != c && d != from ==>
        unchanged(queues[d]) && unchanged(queues[d].head) && unchanged(old(queues[d].entries))
    {
      hide IsList;
      hide Valid;
      LinkedQueues(from, c);
      forall d | 0 <= d < |queues| && d != c && d != from
        ensures queues[d] != queues[c] && queues[d] != queues[from]
        ensures queues[d].Nodes() !! queues[c].Nodes() + queues[from].Nodes()
      {
        NodesApart(c, d);
        NodesApart(from, d);
      }
      MoveEntry(id, from, c, k);
    }

    lemma NodesApart(c: nat, d: nat)
      requires Valid() && c < |queues| && d < |queues| && c != d
      ensures queues[c] != queues[d] && queues[c].Nodes() !! queues[d].Nodes()
    {
      hide IsList;
      hide Machine.WellFormed;
      QueuesApart(c, d);
    }

    lemma LinkedQueues(c: nat, d: nat)
      requires Valid() && c < |queues| && d < |queues| && c != d
      ensures queues[c] != queues[d] && Apart(queues[c].head, queues[c].entries, queues[d].head, queues[d].entries)
      ensures IsList(queues[c].head, queues[c].entries) && IsList(queues[d].head, queues[d].entries)
      ensures queues[c].Nodes() <= nodes && queues[d].Nodes() <= nodes
    {
      hide IsList;
      hide Machine.WellFormed;
      assert QueueValid(c) && QueueValid(d);
      QueuesApart(c, d);
    }

    method MoveEntry(id: nat, from: nat, c: nat, ghost k: nat)
      requires id < |tasks| && c < |queues| && from < |queues| && queues[from] != queues[c]
      requires IsList(queues[from].head, queues[from].entries) && IsList(queues[c].head, queues[c].entries)
      requires Apart(queues[from].head, queues[from].entries, queues[c].head, queues[c].entries)
      requires k < |queues[from].entries| && queues[from].entries[k] == tasks[id].list
      modifies tasks[id], queues[from], queues[c], queues[from].Nodes(), queues[c].Nodes()
      ensures tasks[id].cpu == c && tasks[id].Info().task == old(tasks[id].Info().task)
      ensures IsList(queues[from].head, queues[from].entries) && IsList(queues[c].head, queues[c].entries)
      ensures queues[from].entries == Without(old(queues[from].entries), k)
      ensures queues[c].entries == old(queues[c].entries) + [tasks[id].list]
      ensures queues[from].length == old(queues[from].length) && queues[from].current == old(queues[from].current)
      ensures queues[c].length == old(queues[c].length) && queues[c].current == old(queues[c].current)
    {
      hide IsList;
      Transfer(tasks[id].list, queues[c].head, queues[from].head, queues[from].entries, k, queues[c].entries);
      tasks[id].cpu := c;
      queues[from].entries := Without(queues[from].entries, k);
      queues[c].entries := queues[c].entries + [tasks[id].list];
    }

    /** `migrate_task` */
    method MigrateTask(id: nat, c: nat)
      requires Valid() && id < |tasks| && c < |queues|
      modifies this`view, tasks, queues, nodes
      ensures Valid() && Enabled(old(view), Move(id, c))
      ensures view == Step(old(view), Move(id, c))
    {
      hide IsList;
      hide Machine.WellFormed;
      hide Migrate;
      ghost var from, k := Whereabouts(id);
      if tasks[id].cpu == c {
        MigrateQueues(view, id, c, k);
        return;
      }
      Relink(id, tasks[id].cpu, c, k);
      MigrateIsWellFormed(view, id, c);
      MigrateQueues(view, id, c, k);
      view := Migrate(view, id, c);
      forall i | 0 <= i < |tasks| ensures TaskValid(i) {
        assert old(TaskValid(i)) && old(TaskValid(id));
      }
      QueueGrows(c, id);
      QueueShrinks(from, k);
      forall d | 0 <= d < |queues| && d != c && d != from ensures QueueValid(d) {
        OthersStayValid(d);
      }
    }

    /** One event. */
    method Handle(e: Event)
      requires Valid() && Enabled(view, e)
      modifies this, tasks, queues, nodes
      ensures Valid() && old(view).WellFormed() && Enabled(old(view), e) && view == Step(old(view), e)
      ensures fresh(nodes - old(nodes)) && forall i :: 0 <= i < |tasks| ==> tasks[i] in old(tasks) || fresh(tasks[i])
    {
      match e
      case TimerTick(c) => TimerTick(c);
      case Yield(c) => Schedule(c);
      case Exit(c, id) => TaskExit(c, id);
      case NewTask(prio, cpu, online) => CreateTask(prio, cpu, online);
      case Move(id, c) => MigrateTask(id, c);
    }

    /** Any run of events the callers may cause. */
    method Run(es: seq<Event>)
      requires Valid() && After(view, es).Some?
      modifies this, tasks, queues, nodes
      ensures Valid() && old(view).WellFormed() && After(old(view), es) == Some(view)
    {
      ghost var was := view;
      for n := 0 to |es|
        invariant Valid() && was.WellFormed() && After(was, es[..n]) == Some(view)
        invariant fresh(nodes - old(nodes))
        invariant forall i :: 0 <= i < |tasks| ==> tasks[i] in old(tasks) || fresh(tasks[i])
      {
        PrefixRuns(was, es, n + 1);
        assert es[..n + 1][..n] == es[..n];
        Handle(es[n]);
      }
      assert es[..|es|] == es;
    }
  }
}
