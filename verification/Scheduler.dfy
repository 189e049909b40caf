/** The scheduler as it runs (src/kernel/task.c): run queues linked through the tasks
    themselves, changed in place. */
module SmpScheduler {
  import opened Common
  import opened Scheduling

  /** task_t, without what the scheduler only carries along. */
  datatype TaskRec = TaskRec(id: nat, state: State, cpu: nat, slice: nat, next: nat)

  /** cpu_t and its runqueue_t; 0 is the null pointer. */
  datatype CpuRec = CpuRec(current: nat, idle: nat, resched: bool, head: nat, tail: nat, count: nat)

  function TaskView(t: TaskRec): Task {
    Task(t.id, t.state, t.cpu, t.slice)
  }

  ghost function TasksView(tasks: map<nat, TaskRec>): (r: map<nat, Task>)
    ensures r.Keys == tasks.Keys
    ensures forall p :: p in tasks ==> r[p] == TaskView(tasks[p])
  {
    map p | p in tasks :: TaskView(tasks[p])
  }

  ghost function CpusView(cpus: seq<CpuRec>, queues: seq<seq<nat>>): (r: seq<Cpu>)
    requires |cpus| == |queues|
    ensures |r| == |cpus|
    ensures forall c :: 0 <= c < |r| ==> r[c] == Cpu(queues[c], cpus[c].current, cpus[c].idle, cpus[c].resched)
  {
    seq(|cpus|, c requires 0 <= c < |cpus| => Cpu(queues[c], cpus[c].current, cpus[c].idle, cpus[c].resched))
  }

  /** The queue starting at x.head is linked through `next` and lists exactly q. */
  ghost predicate Links(tasks: map<nat, TaskRec>, x: CpuRec, q: seq<nat>) {
    && x.count == |q|
    && x.head == (if q == [] then 0 else q[0])
    && x.tail == (if q == [] then 0 else q[|q| - 1])
    && (forall k {:trigger LinkOk(tasks, q, k)} :: 0 <= k < |q| ==> LinkOk(tasks, q, k))
  }

  ghost predicate LinkOk(tasks: map<nat, TaskRec>, q: seq<nat>, k: nat)
    requires k < |q|
  {
    && q[k] != 0 && q[k] in tasks
    && tasks[q[k]].next == (if k + 1 < |q| then q[k + 1] else 0)
  }

  /** No task is in two places of any queues. */
  ghost predicate Apart(queues: seq<seq<nat>>) {
    forall c, d, j, k ::
      0 <= c < |queues| && 0 <= d < |queues| && 0 <= j < |queues[c]| && 0 <= k < |queues[d]| ==>
        queues[c][j] == queues[d][k] ==> c == d && j == k
  }

  ghost predicate Nowhere(queues: seq<seq<nat>>, p: nat) {
    forall c, k :: 0 <= c < |queues| && 0 <= k < |queues[c]| ==> queues[c][k] != p
  }

  ghost predicate AllLinked(tasks: map<nat, TaskRec>, cpus: seq<CpuRec>, queues: seq<seq<nat>>) {
    && |queues| == |cpus| && 0 !in tasks
    && Apart(queues)
    && (forall c {:trigger Links(tasks, cpus[c], queues[c])} :: 0 <= c < |cpus| ==> Links(tasks, cpus[c], queues[c]))
  }

  /** Tasks outside all queues may change freely. */
  lemma ElsewhereKept(tasks: map<nat, TaskRec>, cpus: seq<CpuRec>, queues: seq<seq<nat>>, p: nat, t: TaskRec)
    requires AllLinked(tasks, cpus, queues) && p != 0
    requires Nowhere(queues, p) || (p in tasks && t.next == tasks[p].next)
    ensures AllLinked(tasks[p := t], cpus, queues)
  {
    var after := tasks[p := t];
    forall c | 0 <= c < |cpus| ensures Links(after, cpus[c], queues[c]) {
      var q := queues[c];
      assert Links(tasks, cpus[c], q);
      forall k | 0 <= k < |q| ensures LinkOk(after, q, k) {
        assert LinkOk(tasks, q, k);
      }
    }
  }

  class Scheduler {
    var tasks: map<nat, TaskRec>
    var cpus: seq<CpuRec>
    var nextId: nat
    ghost var queues: seq<seq<nat>>

    ghost predicate Valid()
      reads this
    {
      AllLinked(tasks, cpus, queues)
    }

    ghost function Now(): (s: Sched)
      requires |queues| == |cpus|
      reads this
      ensures |s.cpus| == |cpus|
    {
      Sched(CpusView(cpus, queues), TasksView(tasks), nextId)
    }

    /** enqueue_task. */
    method EnqueueTask(c: nat, p: nat)
      requires Valid() && c < |cpus| && p in tasks && Nowhere(queues, p)
      modifies this`tasks, this`cpus, this`queues
      ensures Valid() && |cpus| == old(|cpus|) && Now() == Enqueue(old(Now()), c, p)
    {
      ghost var t0, x0, q0 := tasks, cpus, queues;
      var rq := cpus[c];
      assert Links(t0, rq, q0[c]);
      if q0[c] != [] { assert LinkOk(t0, q0[c], |q0[c]| - 1); }
      tasks := tasks[p := tasks[p].(next := 0)];
      if rq.tail != 0 {
        tasks := tasks[rq.tail := tasks[rq.tail].(next := p)];
        cpus := cpus[c := rq.(tail := p, count := rq.count + 1)];
      } else {
        cpus := cpus[c := rq.(head := p, tail := p, count := rq.count + 1)];
      }
      queues := queues[c := queues[c] + [p]];
      Appended(t0, x0, q0, tasks, cpus, c, p);
      assert Now().cpus == Enqueue(old(Now()), c, p).cpus;
      assert Now().tasks == old(Now()).tasks;
    }

    static lemma Appended(t0: map<nat, TaskRec>, x0: seq<CpuRec>, q0: seq<seq<nat>>,
                          t1: map<nat, TaskRec>, x1: seq<CpuRec>, c: nat, p: nat)
      requires AllLinked(t0, x0, q0) && c < |x0| && p in t0 && Nowhere(q0, p)
      requires q0[c] != [] ==> q0[c][|q0[c]| - 1] in t0
      requires x1 == x0[c := x0[c].(head := if q0[c] == [] then p else x0[c].head, tail := p, count := x0[c].count + 1)]
      requires t1 == (if q0[c] == [] then t0[p := t0[p].(next := 0)]
                      else var last := q0[c][|q0[c]| - 1];
                        t0[p := t0[p].(next := 0)][last := t0[last].(next := p)])
      ensures AllLinked(t1, x1, q0[c := q0[c] + [p]])
    {
      var q1 := q0[c := q0[c] + [p]];
      forall d | 0 <= d < |x1| ensures Links(t1, x1[d], q1[d]) {
        assert Links(t0, x0[d], q0[d]);
        forall k | 0 <= k < |q1[d]| ensures LinkOk(t1, q1[d], k) {
          if k < |q0[d]| { assert LinkOk(t0, q0[d], k); }
        }
      }
    }

    /** dequeue_task. */
    method DequeueTask(c: nat) returns (p: nat)
      requires Valid() && c < |cpus|
      modifies this`cpus, this`queues
      ensures Valid() && |cpus| == old(|cpus|) && Now() == Dequeue(old(Now()), c).1
      ensures p == (match Dequeue(old(Now()), c).0 case None => 0 case Some(q) => q)
      ensures p != 0 ==> p in tasks && Nowhere(queues, p)
      ensures p == 0 ==> old(queues[c]) == []
    {
      ghost var x0, q0 := cpus, queues;
      var rq := cpus[c];
      assert Links(tasks, rq, q0[c]);
      if rq.head == 0 {
        assert q0[c] != [] ==> LinkOk(tasks, q0[c], 0);
        return 0;
      }
      assert LinkOk(tasks, q0[c], 0);
      p := rq.head;
      var next := tasks[p].next;
      cpus := cpus[c := rq.(head := next, tail := if next == 0 then 0 else rq.tail, count := rq.count - 1)];
      queues := queues[c := queues[c][1..]];
      Removed(tasks, x0, q0, cpus, c);
      assert Now().cpus == Dequeue(old(Now()), c).1.cpus;
    }

    static lemma Removed(t: map<nat, TaskRec>, x0: seq<CpuRec>, q0: seq<seq<nat>>, x1: seq<CpuRec>, c: nat)
      requires AllLinked(t, x0, q0) && c < |x0| && q0[c] != [] && q0[c][0] in t
      requires var next := t[q0[c][0]].next;
        x1 == x0[c := x0[c].(head := next, tail := if next == 0 then 0 else x0[c].tail, count := |q0[c]| - 1)]
      ensures AllLinked(t, x1, q0[c := q0[c][1..]]) && Nowhere(q0[c := q0[c][1..]], q0[c][0])
    {
      var q1 := q0[c := q0[c][1..]];
      assert Links(t, x0[c], q0[c]) && LinkOk(t, q0[c], 0);
      if |q0[c]| > 1 { assert LinkOk(t, q0[c], 1); }
      assert forall k :: 0 <= k < |q1[c]| ==> q1[c][k] == q0[c][k + 1];
      forall d | 0 <= d < |x1| ensures Links(t, x1[d], q1[d]) {
        assert Links(t, x0[d], q0[d]);
        forall k | 0 <= k < |q1[d]| ensures LinkOk(t, q1[d], k) {
          assert LinkOk(t, q0[d], if d == c then k + 1 else k);
        }
      }
      forall d, e, j, k | 0 <= d < |q1| && 0 <= e < |q1| && 0 <= j < |q1[d]| && 0 <= k < |q1[e]| && q1[d][j] == q1[e][k]
        ensures d == e && j == k
      {
        assert q1[d][j] == q0[d][if d == c then j + 1 else j] && q1[e][k] == q0[e][if e == c then k + 1 else k];
      }
    }

    function LoadOf(c: nat): nat
      requires c < |cpus|
      reads this
    {
      cpus[c].count + (if cpus[c].current in tasks && tasks[cpus[c].current].id != 0 then 1 else 0)
    }

    /** pick_least_loaded_cpu. */
    method PickLeastLoaded() returns (least: nat)
      requires Valid() && |cpus| >= 1
      ensures least == LeastLoaded(Now(), |cpus|)
    {
      least := 0;
      var minLoad := LoadOf(0);
      LoadsAgree(0);
      var i := 1;
      while i < |cpus|
        invariant 1 <= i <= |cpus| && least < i
        invariant least == LeastLoaded(Now(), i) && minLoad == Load(Now(), least)
      {
        var load := LoadOf(i);
        LoadsAgree(i);
        if load < minLoad {
          minLoad := load;
          least := i;
        }
        i := i + 1;
      }
    }

    lemma LoadsAgree(c: nat)
      requires Valid() && c < |cpus|
      ensures LoadOf(c) == Load(Now(), c)
    {
      assert Links(tasks, cpus[c], queues[c]);
    }

    method NewTask(c: nat, p: nat)
      requires Valid() && c < |cpus| && p != 0 && p !in tasks
      modifies this
      ensures Valid() && |cpus| == old(|cpus|) && Now() == Spawn(old(Now()), c, p)
    {
      NotQueued(p);
      ghost var was := Now();
      var t := TaskRec(nextId, Ready, c, TIMESLICE, 0);
      ElsewhereKept(tasks, cpus, queues, p, t);
      tasks := tasks[p := t];
      nextId := nextId + 1;
      assert Now() == SetTask(was, p, TaskView(t)).(nextId := nextId);
      EnqueueTask(c, p);
    }

    lemma NotQueued(p: nat)
      requires Valid() && p !in tasks
      ensures Nowhere(queues, p)
    {
      forall c, k | 0 <= c < |queues| && 0 <= k < |queues[c]| ensures queues[c][k] != p {
        assert Links(tasks, cpus[c], queues[c]) && LinkOk(tasks, queues[c], k);
      }
    }

    /** task_create: the address of the new task comes from the heap. */
    method TaskCreate(p: nat)
      requires Valid() && |cpus| >= 1 && p != 0 && p !in tasks
      modifies this
      ensures Valid() && |cpus| == old(|cpus|) && Now() == Step(old(Now()), Create(p))
    {
      var target := PickLeastLoaded();
      NewTask(target, p);
    }

    /** task_fork, queue part. */
    method TaskFork(c: nat, p: nat)
      requires Valid() && c < |cpus| && p != 0 && p !in tasks
      modifies this
      ensures Valid() && |cpus| == old(|cpus|) && Now() == Step(old(Now()), Fork(c, p))
    {
      NewTask(c, p);
    }

    /** task_steal. */
    method TaskSteal(self: nat) returns (p: nat)
      requires Valid() && self < |cpus|
      modifies this
      ensures Valid() && |cpus| == old(|cpus|) && Now() == Steal(old(Now()), self, 0).1
      ensures p == (match Steal(old(Now()), self, 0).0 case None => 0 case Some(q) => q)
      ensures p != 0 ==> p in tasks && Nowhere(queues, p)
    {
      var i := 0;
      while i < |cpus|
        invariant i <= |cpus| && Valid() && |cpus| == old(|cpus|)
        invariant Now() == old(Now())
        invariant Steal(Now(), self, i) == Steal(old(Now()), self, 0)
      {
        if i != self {
          ghost var was := Now();
          p := DequeueTask(i);
          if p != 0 {
            assert was.cpus[i].queue != [];
            ghost var s1 := Now();
            ElsewhereKept(tasks, cpus, queues, p, tasks[p].(cpu := self));
            tasks := tasks[p := tasks[p].(cpu := self)];
            assert Now() == SetTask(s1, p, TaskAt(s1, p).(cpu := self));
            return;
          }
        }
        i := i + 1;
      }
      p := 0;
    }

    /** The requeueing half of task_schedule. */
    method RequeueCurrent(c: nat)
      requires Valid() && c < |cpus| && Inv(Now())
      modifies this
      ensures Valid() && |cpus| == old(|cpus|) && Now() == Requeue(old(Now()), c)
    {
      ghost var was := Now();
      var cur := cpus[c].current;
      CurrentNowhere(c);
      cpus := cpus[c := cpus[c].(resched := false)];
      FlagsFree(old(tasks), old(cpus), queues, cpus);
      assert Now() == SetCpu(was, c, was.cpus[c].(resched := false));
      if tasks[cur].state == Running {
        ElsewhereKept(tasks, cpus, queues, cur, tasks[cur].(state := Ready));
        tasks := tasks[cur := tasks[cur].(state := Ready)];
        assert Now() == SetTask(SetCpu(was, c, was.cpus[c].(resched := false)), cur, TaskAt(was, cur).(state := Ready));
        if tasks[cur].id != 0 {
          EnqueueTask(c, cur);
        }
      }
    }

    /** The current task of a CPU is in no queue, and neither is its idle task. */
    lemma CurrentNowhere(c: nat)
      requires Valid() && c < |cpus| && Inv(Now())
      ensures cpus[c].current in tasks && Nowhere(queues, cpus[c].current)
    {
      var s := Now();
      assert CurrentOk(s, c);
      forall d, k | 0 <= d < |queues| && 0 <= k < |queues[d]| ensures queues[d][k] != cpus[c].current {
        assert QueueOk(s, d) && QueuedOk(s, d, s.cpus[d].queue[k]);
      }
    }

    /** Links do not depend on the flags and the current task. */
    static lemma FlagsFree(tasks: map<nat, TaskRec>, x0: seq<CpuRec>, queues: seq<seq<nat>>, x1: seq<CpuRec>)
      requires AllLinked(tasks, x0, queues) && |x1| == |x0|
      requires forall c :: 0 <= c < |x0| ==> x1[c] == x0[c].(resched := x1[c].resched, current := x1[c].current)
      ensures AllLinked(tasks, x1, queues)
    {
      forall c | 0 <= c < |x1| ensures Links(tasks, x1[c], queues[c]) {
        assert Links(tasks, x0[c], queues[c]);
      }
    }

    /** The picking loop of task_schedule, entered with the outgoing task requeued. The
        branches that reap an exited task or requeue another one are never taken. */
    method PickNext(c: nat, ghost was: Sched) returns (next: nat)
      requires Valid() && c < |cpus| && c < |was.cpus| && Inv(was) && Now() == Requeue(was, c)
      modifies this
      ensures Valid() && |cpus| == old(|cpus|) && Now() == Pick(Requeue(was, c), c).1
      ensures next == (match Pick(Requeue(was, c), c).0 case None => 0 case Some(q) => q)
      ensures next != 0 ==> next in tasks && Nowhere(queues, next)
    {
      FirstPickIsReady(was, c);
      next := 0;
      var picked := false;
      while !picked
        invariant Valid() && |cpus| == old(|cpus|)
        invariant !picked ==> Now() == Requeue(was, c)
        invariant picked ==> Now() == Pick(Requeue(was, c), c).1
        invariant picked ==> next == (match Pick(Requeue(was, c), c).0 case None => 0 case Some(q) => q)
        invariant picked && next != 0 ==> next in tasks && Nowhere(queues, next)
        decreases !picked
      {
        next := DequeueTask(c);
        if next == 0 {
          next := TaskSteal(c);
        }
        if next == 0 {
          picked := true;
        } else if tasks[next].state == Exited {
          assert false;  // task_reap
        } else if tasks[next].state == Ready {
          picked := true;
        } else {
          assert false;  // enqueue_task
        }
      }
    }

    /** The dispatching half of task_schedule. */
    method MakeCurrent(c: nat, p: nat)
      requires Valid() && c < |cpus| && p != 0 && p in tasks && Nowhere(queues, p)
      modifies this
      ensures Valid() && |cpus| == old(|cpus|) && Now() == Dispatch(old(Now()), c, p)
    {
      ghost var was := Now();
      cpus := cpus[c := cpus[c].(current := p)];
      FlagsFree(old(tasks), old(cpus), queues, cpus);
      var t := tasks[p].(state := Running, slice := if tasks[p].id == 0 then 0 else TIMESLICE);
      ElsewhereKept(tasks, cpus, queues, p, t);
      tasks := tasks[p := t];
      assert Now().cpus == Dispatch(was, c, p).cpus;
      assert Now().tasks == Dispatch(was, c, p).tasks;
    }

    /** task_schedule. */
    method TaskSchedule(c: nat)
      requires Valid() && c < |cpus| && Inv(Now())
      modifies this
      ensures Valid() && |cpus| == old(|cpus|) && Now() == Schedule(old(Now()), c)
    {
      ghost var was := Now();
      RequeueCurrent(c);
      var next := PickNext(c, was);
      RequeueMid(was, c);
      PickMid(Requeue(was, c), c);
      PickKeepsIdle(Requeue(was, c), c);
      if next == 0 {
        next := cpus[c].idle;
        IdleNowhere(c, next, Pick(Requeue(was, c), c).0);
      }
      MakeCurrent(c, next);
    }

    lemma IdleNowhere(c: nat, p: nat, o: Option<nat>)
      requires Valid() && c < |cpus| && Mid(Now(), c, o) && p == cpus[c].idle
      ensures p in tasks && p != 0 && Nowhere(queues, p)
    {
      var s := Now();
      forall d, k | 0 <= d < |queues| && 0 <= k < |queues[d]| ensures queues[d][k] != p {
        assert QueueOk(s, d) && QueuedOk(s, d, s.cpus[d].queue[k]);
      }
    }

    /** task_timer_tick. */
    method TaskTimerTick(c: nat)
      requires Valid() && c < |cpus| && Inv(Now())
      modifies this
      ensures Valid() && |cpus| == old(|cpus|) && Now() == TimerTick(old(Now()), c)
    {
      ghost var was := Now();
      CurrentNowhere(c);
      var x := cpus[c];
      var t := tasks[x.current];
      assert Links(tasks, x, queues[c]);
      var asks := true;
      if t.state == Running {
        if t.id == 0 {
          asks := x.count != 0;
        } else {
          var left := if t.slice > 0 then t.slice - 1 else 0;
          ElsewhereKept(tasks, cpus, queues, x.current, t.(slice := left));
          tasks := tasks[x.current := t.(slice := left)];
          asks := left == 0;
        }
      }
      if asks {
        cpus := cpus[c := x.(resched := true)];
        FlagsFree(tasks, old(cpus), queues, cpus);
      }
      assert Now().cpus == TimerTick(was, c).cpus;
      assert Now().tasks == TimerTick(was, c).tasks;
    }

    /** The timer interrupt of isr_handler. */
    method TimerInterrupt(c: nat)
      requires Valid() && c < |cpus| && Inv(Now())
      modifies this
      ensures Valid() && |cpus| == old(|cpus|) && Now() == Step(old(Now()), Tick(c)) && Inv(Now())
    {
      ghost var was := Now();
      StepInv(was, Tick(c));
      TickInv(was, c);
      TaskTimerTick(c);
      if cpus[c].resched {
        TaskSchedule(c);
      }
    }
  }
}
