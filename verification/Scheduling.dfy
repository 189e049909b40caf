/** The SMP scheduler as a state machine (src/kernel/task.c): a run queue and a current task
    per CPU, work stealing, time slices and least-loaded placement. Each operation is one
    atomic step. */
module Scheduling {
  import opened Common

  const TIMESLICE: nat := 4

  datatype State = Ready | Running | Exited

  /** The part of task_t the scheduler decides with. Only idle tasks have id 0. */
  datatype Task = Task(id: nat, state: State, cpu: nat, slice: nat)

  /** Tasks are named by their addresses; the queue is listed from head to tail. */
  datatype Cpu = Cpu(queue: seq<nat>, current: nat, idle: nat, resched: bool)

  datatype Sched = Sched(cpus: seq<Cpu>, tasks: map<nat, Task>, nextId: nat)

  // ---------------------------------------------------------------- operations

  function TaskAt(s: Sched, p: nat): Task {
    if p in s.tasks then s.tasks[p] else Task(0, Ready, 0, 0)
  }

  function SetTask(s: Sched, p: nat, t: Task): Sched {
    s.(tasks := s.tasks[p := t])
  }

  function SetCpu(s: Sched, c: nat, x: Cpu): (r: Sched)
    requires c < |s.cpus|
    ensures |r.cpus| == |s.cpus|
  {
    s.(cpus := s.cpus[c := x])
  }

  /** enqueue_task. */
  function Enqueue(s: Sched, c: nat, p: nat): (r: Sched)
    requires c < |s.cpus|
    ensures |r.cpus| == |s.cpus|
  {
    SetCpu(s, c, s.cpus[c].(queue := s.cpus[c].queue + [p]))
  }

  /** dequeue_task. */
  function Dequeue(s: Sched, c: nat): (r: (Option<nat>, Sched))
    requires c < |s.cpus|
    ensures |r.1.cpus| == |s.cpus|
  {
    var q := s.cpus[c].queue;
    if q == [] then (None, s) else (Some(q[0]), SetCpu(s, c, s.cpus[c].(queue := q[1..])))
  }

  /** task_steal from CPU v on: the head of the first other queue that is not empty. */
  function Steal(s: Sched, c: nat, v: nat): (r: (Option<nat>, Sched))
    requires c < |s.cpus|
    ensures |r.1.cpus| == |s.cpus|
    decreases |s.cpus| - v
  {
    if v >= |s.cpus| then (None, s)
    else if v == c || s.cpus[v].queue == [] then Steal(s, c, v + 1)
    else
      var (p, s1) := Dequeue(s, v);
      (p, SetTask(s1, p.value, TaskAt(s1, p.value).(cpu := c)))
  }

  /** The task task_schedule picks; the invariant makes the first one it dequeues READY. */
  function Pick(s: Sched, c: nat): (r: (Option<nat>, Sched))
    requires c < |s.cpus|
    ensures |r.1.cpus| == |s.cpus|
  {
    if s.cpus[c].queue != [] then Dequeue(s, c) else Steal(s, c, 0)
  }

  /** The first half of task_schedule: a task that is still running goes to the tail. */
  function Requeue(s: Sched, c: nat): (r: Sched)
    requires c < |s.cpus|
    ensures |r.cpus| == |s.cpus|
  {
    var s0 := SetCpu(s, c, s.cpus[c].(resched := false));
    var cur := s.cpus[c].current;
    if TaskAt(s, cur).state != Running then s0
    else
      var s1 := SetTask(s0, cur, TaskAt(s, cur).(state := Ready));
      if TaskAt(s, cur).id != 0 then Enqueue(s1, c, cur) else s1
  }

  /** Its last part: make p the current task. */
  function Dispatch(s: Sched, c: nat, p: nat): (r: Sched)
    requires c < |s.cpus|
    ensures |r.cpus| == |s.cpus|
  {
    SetTask(SetCpu(s, c, s.cpus[c].(current := p)), p,
            TaskAt(s, p).(state := Running, slice := if TaskAt(s, p).id == 0 then 0 else TIMESLICE))
  }

  /** task_schedule. */
  function Schedule(s: Sched, c: nat): (r: Sched)
    requires c < |s.cpus|
    ensures |r.cpus| == |s.cpus|
  {
    var (p, s1) := Pick(Requeue(s, c), c);
    Dispatch(s1, c, if p.Some? then p.value else s.cpus[c].idle)
  }

  function Load(s: Sched, c: nat): nat
    requires c < |s.cpus|
  {
    |s.cpus[c].queue| + (if TaskAt(s, s.cpus[c].current).id != 0 then 1 else 0)
  }

  /** pick_least_loaded_cpu: the first CPU with the least load, looking at 0 .. n - 1. */
  function LeastLoaded(s: Sched, n: nat): (c: nat)
    requires 1 <= n <= |s.cpus|
    ensures c < n
    ensures forall d :: 0 <= d < n ==> Load(s, c) <= Load(s, d)
    ensures forall d :: 0 <= d < c ==> Load(s, c) < Load(s, d)
  {
    if n == 1 then 0
    else
      var c := LeastLoaded(s, n - 1);
      if Load(s, n - 1) < Load(s, c) then n - 1 else c
  }

  /** A new task, READY on the given CPU's queue, as task_create and task_fork make it. */
  function Spawn(s: Sched, c: nat, p: nat): (r: Sched)
    requires c < |s.cpus|
    ensures |r.cpus| == |s.cpus|
  {
    Enqueue(SetTask(s, p, Task(s.nextId, Ready, c, TIMESLICE)).(nextId := s.nextId + 1), c, p)
  }

  /** task_timer_tick: may ask for a reschedule. */
  function TimerTick(s: Sched, c: nat): (r: Sched)
    requires c < |s.cpus|
    ensures |r.cpus| == |s.cpus|
  {
    var cur := s.cpus[c].current;
    var t := TaskAt(s, cur);
    var asked := SetCpu(s, c, s.cpus[c].(resched := true));
    if t.state != Running then asked
    else if t.id == 0 then (if s.cpus[c].queue != [] then asked else s)
    else
      var left := if t.slice > 0 then t.slice - 1 else 0;
      SetTask(if left == 0 then asked else s, cur, t.(slice := left))
  }

  datatype Op =
    | Create(ptr: nat)               // task_create, task_create_user, task_exec
    | Fork(cpu: nat, ptr: nat)       // task_fork
    | Exit(cpu: nat)                 // the current task is marked exited
    | Request(cpu: nat)              // task_request_reschedule
    | Yield(cpu: nat)                // task_schedule called directly
    | Tick(cpu: nat)                 // timer interrupt: tick, then schedule if asked

  /** Operations name an existing CPU, and memory for a new task is new. */
  predicate Admits(s: Sched, op: Op) {
    match op
    case Create(p) => p !in s.tasks
    case Fork(c, p) => c < |s.cpus| && p !in s.tasks
    case Exit(c) => c < |s.cpus| && TaskAt(s, s.cpus[c].current).id != 0
    case Request(c) => c < |s.cpus|
    case Yield(c) => c < |s.cpus|
    case Tick(c) => c < |s.cpus|
  }

  function Step(s: Sched, op: Op): (r: Sched)
    requires |s.cpus| >= 1
    ensures |r.cpus| == |s.cpus|
  {
    if !Admits(s, op) then s
    else
      match op
      case Create(p) => Spawn(s, LeastLoaded(s, |s.cpus|), p)
      case Fork(c, p) => Spawn(s, c, p)
      case Exit(c) => SetTask(s, s.cpus[c].current, TaskAt(s, s.cpus[c].current).(state := Exited))
      case Request(c) => SetCpu(s, c, s.cpus[c].(resched := true))
      case Yield(c) => Schedule(s, c)
      case Tick(c) =>
        var s1 := TimerTick(s, c);
        if s1.cpus[c].resched then Schedule(s1, c) else s1
  }

  function Run(s: Sched, ops: seq<Op>): (r: Sched)
    requires |s.cpus| >= 1
    ensures |r.cpus| == |s.cpus|
    decreases |ops|
  {
    if ops == [] then s else Run(Step(s, ops[0]), ops[1..])
  }

  // ---------------------------------------------------------------- the invariant

  ghost predicate CurrentOk(s: Sched, c: nat)
    requires c < |s.cpus|
  {
    var x := s.cpus[c];
    && x.idle in s.tasks && s.tasks[x.idle].id == 0 && s.tasks[x.idle].cpu == c && s.tasks[x.idle].state != Exited
    && x.current in s.tasks && s.tasks[x.current].cpu == c
    && (s.tasks[x.current].id == 0 ==> x.current == x.idle && s.tasks[x.idle].state == Running)
    && (s.tasks[x.current].id != 0 ==>
          s.tasks[x.current].state != Ready
          && s.tasks[x.current].slice <= TIMESLICE
          && (s.tasks[x.current].state == Running && s.tasks[x.current].slice == 0 ==> x.resched))
  }

  ghost predicate QueueOk(s: Sched, c: nat)
    requires c < |s.cpus|
  {
    && NoDup(s.cpus[c].queue)
    && (forall k :: 0 <= k < |s.cpus[c].queue| ==> QueuedOk(s, c, s.cpus[c].queue[k]))
  }

  ghost predicate QueuedOk(s: Sched, c: nat, p: nat) {
    p in s.tasks && s.tasks[p].id != 0 && s.tasks[p].state == Ready && s.tasks[p].cpu == c
  }

  /** A task is where its state says: READY on its CPU's queue, RUNNING as its CPU's current. */
  ghost predicate Placed(s: Sched, p: nat)
    requires p in s.tasks
  {
    var t := s.tasks[p];
    && t.cpu < |s.cpus|
    && (t.id != 0 && t.state == Ready ==> p in s.cpus[t.cpu].queue)
    && (t.id != 0 && t.state == Running ==> s.cpus[t.cpu].current == p)
  }

  ghost predicate Inv(s: Sched) {
    && |s.cpus| >= 1 && s.nextId >= 1
    && (forall c {:trigger CurrentOk(s, c)} :: 0 <= c < |s.cpus| ==> CurrentOk(s, c))
    && (forall c {:trigger QueueOk(s, c)} :: 0 <= c < |s.cpus| ==> QueueOk(s, c))
    && (forall p {:trigger Placed(s, p)} :: p in s.tasks ==> Placed(s, p))
  }

  /** Conservation: every live task is in exactly one place. */
  ghost predicate InQueue(s: Sched, p: nat, c: nat) {
    c < |s.cpus| && p in s.cpus[c].queue
  }

  ghost predicate OnCpu(s: Sched, p: nat, c: nat) {
    c < |s.cpus| && s.cpus[c].current == p
  }

  lemma OnePlace(s: Sched, p: nat)
    requires Inv(s) && p in s.tasks && s.tasks[p].id != 0 && s.tasks[p].state != Exited
    ensures forall c, d :: InQueue(s, p, c) && InQueue(s, p, d) ==> c == d
    ensures forall c, d :: OnCpu(s, p, c) && OnCpu(s, p, d) ==> c == d
    ensures forall c, d :: !(InQueue(s, p, c) && OnCpu(s, p, d))
    ensures InQueue(s, p, s.tasks[p].cpu) || OnCpu(s, p, s.tasks[p].cpu)
  {
    assert Placed(s, p);
    forall c: nat | InQueue(s, p, c) ensures QueuedOk(s, c, p) {
      assert QueueOk(s, c);
      var k :| 0 <= k < |s.cpus[c].queue| && s.cpus[c].queue[k] == p;
    }
    forall c: nat | OnCpu(s, p, c) ensures s.tasks[p].cpu == c && s.tasks[p].state != Ready {
      assert CurrentOk(s, c);
    }
  }

  // ---------------------------------------------------------------- every step keeps it

  /** Half way through task_schedule on c: nobody runs there, and `hole` has left its queue. */
  ghost predicate Mid(s: Sched, c: nat, hole: Option<nat>) {
    && c < |s.cpus| && s.nextId >= 1
    && (forall d {:trigger CurrentOk(s, d)} :: 0 <= d < |s.cpus| && d != c ==> CurrentOk(s, d))
    && (var i := s.cpus[c].idle; i in s.tasks && s.tasks[i].id == 0 && s.tasks[i].cpu == c && s.tasks[i].state != Exited)
    && (forall d {:trigger QueueOk(s, d)} :: 0 <= d < |s.cpus| ==> QueueOk(s, d))
    && (forall p {:trigger MidPlaced(s, c, hole, p)} :: p in s.tasks ==> MidPlaced(s, c, hole, p))
    && (hole.Some? ==> QueuedOk(s, c, hole.value) && hole.value !in s.cpus[c].queue)
  }

  ghost predicate MidPlaced(s: Sched, c: nat, hole: Option<nat>, p: nat)
    requires p in s.tasks
  {
    var t := s.tasks[p];
    && t.cpu < |s.cpus|
    && (t.id != 0 && t.state == Ready && Some(p) != hole ==> p in s.cpus[t.cpu].queue)
    && (t.id != 0 && t.state == Running ==> t.cpu != c && s.cpus[t.cpu].current == p)
  }

  lemma RequeueMid(s: Sched, c: nat)
    requires Inv(s) && c < |s.cpus|
    ensures Mid(Requeue(s, c), c, None)
    ensures forall d :: 0 <= d < |s.cpus| && d != c ==> Requeue(s, c).cpus[d] == s.cpus[d]
    ensures Requeue(s, c).cpus[c].queue[..|s.cpus[c].queue|] == s.cpus[c].queue
    ensures Requeue(s, c).cpus[c].idle == s.cpus[c].idle
  {
    var r := Requeue(s, c);
    assert CurrentOk(s, c);
    RequeueQueues(s, c);
    forall d | 0 <= d < |r.cpus| && d != c ensures CurrentOk(r, d) {
      assert CurrentOk(s, d);
    }
    forall p | p in r.tasks ensures MidPlaced(r, c, None, p) {
      assert Placed(s, p);
    }
  }

  lemma RequeueQueues(s: Sched, c: nat)
    requires Inv(s) && c < |s.cpus|
    ensures forall d :: 0 <= d < |s.cpus| ==> QueueOk(Requeue(s, c), d)
  {
    var r, cur := Requeue(s, c), s.cpus[c].current;
    assert CurrentOk(s, c) && QueueOk(s, c);
    forall d | 0 <= d < |r.cpus| ensures QueueOk(r, d) {
      assert QueueOk(s, d) && CurrentOk(s, d);
      forall k | 0 <= k < |s.cpus[d].queue| ensures s.cpus[d].queue[k] != cur {
        assert QueuedOk(s, d, s.cpus[d].queue[k]);
      }
      forall k | 0 <= k < |r.cpus[d].queue| ensures QueuedOk(r, d, r.cpus[d].queue[k]) {
        if k < |s.cpus[d].queue| { assert QueuedOk(s, d, s.cpus[d].queue[k]); }
      }
    }
  }

  lemma DequeueMid(s: Sched, c: nat, v: nat)
    requires Mid(s, c, None) && v < |s.cpus| && s.cpus[v].queue != []
    ensures var (p, s1) := Dequeue(s, v);
      Mid(SetTask(s1, p.value, TaskAt(s1, p.value).(cpu := c)), c, p)
  {
    var (o, s1) := Dequeue(s, v);
    var p := o.value;
    var r := SetTask(s1, p, TaskAt(s1, p).(cpu := c));
    assert QueueOk(s, v) && QueuedOk(s, v, s.cpus[v].queue[0]);
    forall d | 0 <= d < |r.cpus| ensures QueueOk(r, d) && p !in r.cpus[d].queue {
      assert QueueOk(s, d);
      forall k | 0 <= k < |r.cpus[d].queue| ensures QueuedOk(r, d, r.cpus[d].queue[k]) && r.cpus[d].queue[k] != p {
        var k' := if d == v then k + 1 else k;
        assert r.cpus[d].queue[k] == s.cpus[d].queue[k'];
        assert QueuedOk(s, d, s.cpus[d].queue[k']);
      }
    }
    forall d | 0 <= d < |r.cpus| && d != c ensures CurrentOk(r, d) {
      assert CurrentOk(s, d);
    }
    forall q | q in r.tasks ensures MidPlaced(r, c, o, q) {
      assert MidPlaced(s, c, None, q);
    }
  }

  lemma {:induction false} StealMid(s: Sched, c: nat, v: nat)
    requires Mid(s, c, None)
    ensures Mid(Steal(s, c, v).1, c, Steal(s, c, v).0)
    decreases |s.cpus| - v
  {
    if v < |s.cpus| {
      if v == c || s.cpus[v].queue == [] {
        StealMid(s, c, v + 1);
      } else {
        DequeueMid(s, c, v);
      }
    }
  }

  lemma PickMid(s: Sched, c: nat)
    requires Mid(s, c, None)
    ensures Mid(Pick(s, c).1, c, Pick(s, c).0)
  {
    if s.cpus[c].queue != [] {
      DequeueMid(s, c, c);
      var (p, s1) := Dequeue(s, c);
      assert QueueOk(s, c) && QueuedOk(s, c, p.value);
      assert SetTask(s1, p.value, TaskAt(s1, p.value).(cpu := c)) == s1;
    } else {
      StealMid(s, c, 0);
    }
  }

  lemma DispatchInv(s: Sched, c: nat, o: Option<nat>)
    requires Mid(s, c, o)
    ensures Inv(Dispatch(s, c, if o.Some? then o.value else s.cpus[c].idle))
  {
    var p := if o.Some? then o.value else s.cpus[c].idle;
    var r := Dispatch(s, c, p);
    forall d | 0 <= d < |r.cpus| ensures QueueOk(r, d) {
      assert QueueOk(s, d);
      forall k | 0 <= k < |r.cpus[d].queue| ensures QueuedOk(r, d, r.cpus[d].queue[k]) {
        assert QueuedOk(s, d, s.cpus[d].queue[k]);
      }
    }
    forall d | 0 <= d < |r.cpus| ensures CurrentOk(r, d) {
      if d != c { assert CurrentOk(s, d); }
    }
    forall q | q in r.tasks ensures Placed(r, q) {
      assert MidPlaced(s, c, o, q);
    }
  }

  lemma ScheduleInv(s: Sched, c: nat)
    requires Inv(s) && c < |s.cpus|
    ensures Inv(Schedule(s, c))
  {
    RequeueMid(s, c);
    PickMid(Requeue(s, c), c);
    PickKeepsIdle(Requeue(s, c), c);
    DispatchInv(Pick(Requeue(s, c), c).1, c, Pick(Requeue(s, c), c).0);
  }

  lemma PickKeepsIdle(s: Sched, c: nat)
    requires c < |s.cpus|
    ensures Pick(s, c).1.cpus[c].idle == s.cpus[c].idle
    ensures forall d :: 0 <= d < |s.cpus| ==> Pick(s, c).1.cpus[d].current == s.cpus[d].current
  {
    StealKeepsIdle(s, c, 0);
  }

  lemma {:induction false} StealKeepsIdle(s: Sched, c: nat, v: nat)
    requires c < |s.cpus|
    ensures Steal(s, c, v).1.cpus[c].idle == s.cpus[c].idle
    ensures forall d :: 0 <= d < |s.cpus| ==> Steal(s, c, v).1.cpus[d].current == s.cpus[d].current
    decreases |s.cpus| - v
  {
    if v < |s.cpus| && (v == c || s.cpus[v].queue == []) { StealKeepsIdle(s, c, v + 1); }
  }

  lemma SpawnInv(s: Sched, c: nat, p: nat)
    requires Inv(s) && c < |s.cpus| && p !in s.tasks
    ensures Inv(Spawn(s, c, p))
  {
    var r := Spawn(s, c, p);
    forall d | 0 <= d < |r.cpus| ensures QueueOk(r, d) {
      assert QueueOk(s, d);
      forall k | 0 <= k < |s.cpus[d].queue| ensures s.cpus[d].queue[k] != p {
        assert QueuedOk(s, d, s.cpus[d].queue[k]);
      }
      forall k | 0 <= k < |r.cpus[d].queue| ensures QueuedOk(r, d, r.cpus[d].queue[k]) {
        if k < |s.cpus[d].queue| { assert QueuedOk(s, d, s.cpus[d].queue[k]); }
      }
    }
    forall d | 0 <= d < |r.cpus| ensures CurrentOk(r, d) {
      assert CurrentOk(s, d);
    }
    forall q | q in r.tasks ensures Placed(r, q) {
      if q != p { assert Placed(s, q); }
    }
  }

  /** Changing a current task without moving it. */
  lemma CurrentChanged(s: Sched, r: Sched, c: nat)
    requires Inv(s) && c < |s.cpus| && |r.cpus| == |s.cpus| && r.nextId == s.nextId
    requires forall d :: 0 <= d < |s.cpus| ==>
      r.cpus[d] == s.cpus[d].(resched := r.cpus[d].resched) && (s.cpus[d].resched ==> r.cpus[d].resched)
    requires var cur := s.cpus[c].current;
      && r.tasks.Keys == s.tasks.Keys && (forall p :: p in s.tasks && p != cur ==> r.tasks[p] == s.tasks[p])
      && cur in s.tasks && r.tasks[cur].id == s.tasks[cur].id && r.tasks[cur].cpu == s.tasks[cur].cpu
      && (s.tasks[cur].id == 0 ==> r.tasks[cur] == s.tasks[cur])
      && (r.tasks[cur].state == s.tasks[cur].state || r.tasks[cur].state == Exited)
    requires CurrentOk(r, c)
    ensures Inv(r)
  {
    assert CurrentOk(s, c);
    forall d | 0 <= d < |r.cpus| ensures QueueOk(r, d) && CurrentOk(r, d) {
      assert QueueOk(s, d) && CurrentOk(s, d);
      forall k | 0 <= k < |r.cpus[d].queue| ensures QueuedOk(r, d, r.cpus[d].queue[k]) {
        assert QueuedOk(s, d, s.cpus[d].queue[k]);
      }
    }
    forall q | q in r.tasks ensures Placed(r, q) {
      assert Placed(s, q);
    }
  }

  lemma TickInv(s: Sched, c: nat)
    requires Inv(s) && c < |s.cpus|
    ensures Inv(TimerTick(s, c))
  {
    assert CurrentOk(s, c);
    CurrentChanged(s, TimerTick(s, c), c);
  }

  /** Every operation of every CPU keeps the invariant. */
  lemma StepInv(s: Sched, op: Op)
    requires Inv(s)
    ensures Inv(Step(s, op))
  {
    if Admits(s, op) {
      match op
      case Create(p) => SpawnInv(s, LeastLoaded(s, |s.cpus|), p);
      case Fork(c, p) => SpawnInv(s, c, p);
      case Exit(c) =>
        assert CurrentOk(s, c);
        CurrentChanged(s, Step(s, op), c);
      case Request(c) =>
        assert CurrentOk(s, c);
        CurrentChanged(s, Step(s, op), c);
      case Yield(c) => ScheduleInv(s, c);
      case Tick(c) =>
        TickInv(s, c);
        if TimerTick(s, c).cpus[c].resched { ScheduleInv(TimerTick(s, c), c); }
    }
  }

  lemma {:induction false} RunInv(s: Sched, ops: seq<Op>)
    requires Inv(s)
    ensures Inv(Run(s, ops))
    decreases |ops|
  {
    if ops != [] {
      StepInv(s, ops[0]);
      RunInv(Step(s, ops[0]), ops[1..]);
    }
  }

  /** The picking loop of task_schedule always ends on the first task it dequeues, which is
      READY: it meets no exited task (so its reaping branch is dead) and requeues none. */
  lemma FirstPickIsReady(s: Sched, c: nat)
    requires Inv(s) && c < |s.cpus|
    ensures var (o, s1) := Pick(Requeue(s, c), c);
      o.Some? ==> o.value in s1.tasks && s1.tasks[o.value].state == Ready && s1.tasks[o.value].id != 0
  {
    RequeueMid(s, c);
    PickMid(Requeue(s, c), c);
  }

  // ---------------------------------------------------------------- who runs next

  /** The tasks in line on CPU c once the outgoing one has gone to the tail. */
  function Line(s: Sched, c: nat): seq<nat>
    requires c < |s.cpus|
  {
    var cur := s.cpus[c].current;
    s.cpus[c].queue + if cur in s.tasks && s.tasks[cur].id != 0 && s.tasks[cur].state == Running then [cur] else []
  }

  /** The lowest-numbered other CPU with a task in line. */
  ghost predicate Victim(s: Sched, c: nat, v: nat) {
    && v < |s.cpus| && v != c && s.cpus[v].queue != []
    && forall d :: 0 <= d < v && d != c ==> s.cpus[d].queue == []
  }

  ghost predicate NobodyElse(s: Sched, c: nat) {
    forall d :: 0 <= d < |s.cpus| && d != c ==> s.cpus[d].queue == []
  }

  /** One queue has lost its head, CPU c runs p, and everything else about the CPUs is as before. */
  ghost predicate Dispatched(s: Sched, r: Sched, c: nat, p: nat, own: seq<nat>, v: nat)
    requires c < |s.cpus|
  {
    && |r.cpus| == |s.cpus|
    && r.cpus[c] == Cpu(own, p, s.cpus[c].idle, false)
    && forall d :: 0 <= d < |s.cpus| && d != c ==>
         r.cpus[d] == if d == v && s.cpus[d].queue != [] then s.cpus[d].(queue := s.cpus[d].queue[1..]) else s.cpus[d]
  }

  lemma {:induction false} StealTakes(s: Sched, c: nat, u: nat, v: nat)
    requires c < |s.cpus| && u <= v && Victim(s, c, v)
    ensures var (p, r) := Steal(s, c, u);
      && p == Some(s.cpus[v].queue[0]) && Dispatched(s, r.(cpus := r.cpus[c := s.cpus[c].(resched := false)]),
           c, s.cpus[c].current, s.cpus[c].queue, v)
      && r.cpus[c] == s.cpus[c] && r.nextId == s.nextId
      && r.tasks == s.tasks[p.value := TaskAt(s, p.value).(cpu := c)]
    decreases v - u
  {
    if u < v { StealTakes(s, c, u + 1, v); }
  }

  lemma {:induction false} StealFindsNone(s: Sched, c: nat, u: nat)
    requires c < |s.cpus| && NobodyElse(s, c)
    ensures Steal(s, c, u) == (None, s)
    decreases |s.cpus| - u
  {
    if u < |s.cpus| { StealFindsNone(s, c, u + 1); }
  }

  lemma {:induction false} SomeVictim(s: Sched, c: nat, n: nat) returns (v: nat)
    requires n <= |s.cpus|
    ensures v < n ==> Victim(s, c, v)
    ensures v >= n ==> forall d :: 0 <= d < n && d != c ==> s.cpus[d].queue == []
  {
    if n == 0 {
      v := 0;
    } else {
      v := SomeVictim(s, c, n - 1);
      if v >= n - 1 { v := if n - 1 != c && s.cpus[n - 1].queue != [] then n - 1 else n; }
    }
  }

  /** task_schedule decides by the queues alone. The first in line on its own CPU runs next; if
      nobody is in line there, the head of the lowest-numbered queue that is not empty does, and
      leaves that queue; only if every queue is empty does the idle task. No other queue and no
      other CPU's task changes. */
  lemma ScheduleDecides(s: Sched, c: nat)
    requires Inv(s) && c < |s.cpus|
    ensures var r := Schedule(s, c);
      && (Line(s, c) != [] ==> Dispatched(s, r, c, Line(s, c)[0], Line(s, c)[1..], c))
      && (forall v: nat :: Line(s, c) == [] && Victim(s, c, v) ==> Dispatched(s, r, c, s.cpus[v].queue[0], [], v))
      && (Line(s, c) == [] && NobodyElse(s, c) ==> Dispatched(s, r, c, s.cpus[c].idle, [], c))
  {
    RequeueMid(s, c);
    var r := Requeue(s, c);
    assert CurrentOk(s, c) && r.cpus[c].queue == Line(s, c);
    if Line(s, c) == [] {
      forall v: nat | Victim(s, c, v) ensures Dispatched(s, Schedule(s, c), c, s.cpus[v].queue[0], [], v) {
        assert Victim(r, c, v);
        StealTakes(r, c, 0, v);
      }
      if NobodyElse(s, c) { StealFindsNone(r, c, 0); }
    }
  }

  /** So a CPU idles exactly when no task is in line anywhere. */
  lemma IdlesExactlyWhen(s: Sched, c: nat)
    requires Inv(s) && c < |s.cpus|
    ensures Schedule(s, c).cpus[c].current == s.cpus[c].idle <==> Line(s, c) == [] && NobodyElse(s, c)
  {
    ScheduleDecides(s, c);
    assert CurrentOk(s, c);
    if Line(s, c) != [] {
      assert QueueOk(s, c) && (s.cpus[c].queue != [] ==> QueuedOk(s, c, s.cpus[c].queue[0]));
    } else {
      var v := SomeVictim(s, c, |s.cpus|);
      if v < |s.cpus| { assert QueueOk(s, v) && QueuedOk(s, v, s.cpus[v].queue[0]); }
    }
  }

  lemma PickSetsTask(s: Sched, c: nat)
    requires Mid(s, c, None)
    ensures var (p, r) := Pick(s, c);
      && r.nextId == s.nextId
      && (p.None? ==> r.tasks == s.tasks)
      && (p.Some? ==> p.value in s.tasks && s.tasks[p.value].id != 0
                      && r.tasks == s.tasks[p.value := s.tasks[p.value].(cpu := c)])
  {
    if s.cpus[c].queue != [] {
      assert QueueOk(s, c) && QueuedOk(s, c, s.cpus[c].queue[0]);
    } else {
      var v := SomeVictim(s, c, |s.cpus|);
      if v < |s.cpus| {
        StealTakes(s, c, 0, v);
        assert QueueOk(s, v) && QueuedOk(s, v, s.cpus[v].queue[0]);
      } else {
        StealFindsNone(s, c, 0);
      }
    }
  }

  /** The task that runs next belongs to c and starts a full time slice; the outgoing one is READY
      if it was still running; no other task changes. */
  lemma ScheduleSetsTasks(s: Sched, c: nat, q: nat)
    requires Inv(s) && c < |s.cpus| && q in s.tasks
    ensures var r := Schedule(s, c);
      && r.tasks.Keys == s.tasks.Keys && r.nextId == s.nextId
      && r.tasks[q] ==
           if q == r.cpus[c].current then Task(s.tasks[q].id, Running, c, if s.tasks[q].id == 0 then 0 else 4)
           else if q == s.cpus[c].current && s.tasks[q].state == Running then s.tasks[q].(state := Ready)
           else s.tasks[q]
  {
    hide Steal, Pick, Inv, QueueOk;
    RequeueMid(s, c);
    CurrentKnown(s, c);
    PickSetsTask(Requeue(s, c), c);
    PickKeepsIdle(Requeue(s, c), c);
  }

  lemma CurrentKnown(s: Sched, c: nat)
    requires Inv(s) && c < |s.cpus|
    ensures CurrentOk(s, c)
  {
  }

  // ---------------------------------------------------------------- where new tasks go, and idle ticks

  /** The tasks a CPU has: its queue, and its current task unless that is the idle one. */
  function TasksOn(s: Sched, c: nat): nat
    requires c < |s.cpus|
  {
    |s.cpus[c].queue| + if s.cpus[c].current == s.cpus[c].idle then 0 else 1
  }

  /** Task p has been made, READY at the tail of CPU c's queue with a full slice and the next id,
      and nothing else has changed. */
  ghost predicate NewTaskAt(s: Sched, r: Sched, c: nat, p: nat) {
    && c < |s.cpus| && |r.cpus| == |s.cpus|
    && (forall d :: 0 <= d < |s.cpus| ==>
          r.cpus[d] == if d == c then s.cpus[d].(queue := s.cpus[d].queue + [p]) else s.cpus[d])
    && r.tasks == s.tasks[p := Task(s.nextId, Ready, c, 4)] && r.nextId == s.nextId + 1
  }

  /** A created task goes to the first CPU of least load. */
  lemma CreatePlaces(s: Sched, p: nat) returns (c: nat)
    requires Inv(s) && p !in s.tasks
    ensures NewTaskAt(s, Step(s, Create(p)), c, p)
    ensures forall d: nat :: d < |s.cpus| ==> TasksOn(s, c) <= TasksOn(s, d) && (d < c ==> TasksOn(s, c) < TasksOn(s, d))
  {
    c := LeastLoaded(s, |s.cpus|);
    forall d: nat | d < |s.cpus| ensures TasksOn(s, d) == Load(s, d) {
      assert CurrentOk(s, d);
    }
  }

  /** A forked task stays on the CPU that forks it. */
  lemma ForkPlaces(s: Sched, c: nat, p: nat)
    requires Inv(s) && c < |s.cpus| && p !in s.tasks
    ensures NewTaskAt(s, Step(s, Fork(c, p)), c, p)
  {
  }

  /** A tick on an idle CPU with nobody in line and no reschedule asked for changes nothing; with
      somebody in line the first of them runs. */
  lemma IdleTick(s: Sched, c: nat)
    requires Inv(s) && c < |s.cpus| && s.cpus[c].current == s.cpus[c].idle
    ensures s.cpus[c].queue == [] && !s.cpus[c].resched ==> Step(s, Tick(c)) == s
    ensures s.cpus[c].queue != [] ==> Step(s, Tick(c)).cpus[c].current == s.cpus[c].queue[0]
  {
    assert CurrentOk(s, c);
    if s.cpus[c].queue != [] {
      TickInv(s, c);
      ScheduleDecides(TimerTick(s, c), c);
    }
  }

  /** Exiting marks the current task and nothing else, and the next task_schedule there takes it off
      the CPU for good; a requested reschedule happens at the next tick at the latest. */
  lemma ExitAndRequest(s: Sched, c: nat)
    requires Inv(s) && c < |s.cpus|
    ensures var p := s.cpus[c].current;
      p in s.tasks && s.tasks[p].id != 0 ==>
        && Step(s, Exit(c)) == s.(tasks := s.tasks[p := s.tasks[p].(state := Exited)])
        && Schedule(Step(s, Exit(c)), c).cpus[c].current != p
    ensures Step(s, Request(c)) == s.(cpus := s.cpus[c := s.cpus[c].(resched := true)])
    ensures Schedules(Step(s, Request(c)), Tick(c), c)
  {
    CurrentKnown(s, c);
    var p := s.cpus[c].current;
    if p in s.tasks && s.tasks[p].id != 0 {
      StepInv(s, Exit(c));
      ScheduleSkipsExited(Step(s, Exit(c)), c, p);
    }
  }

  // ---------------------------------------------------------------- exited tasks

  lemma {:induction false} StealTouchesReady(s: Sched, c: nat, v: nat, p: nat)
    requires c < |s.cpus| && p in s.tasks
    requires forall d, k :: 0 <= d < |s.cpus| && 0 <= k < |s.cpus[d].queue| ==> s.cpus[d].queue[k] != p
    ensures p in Steal(s, c, v).1.tasks && Steal(s, c, v).1.tasks[p] == s.tasks[p] && Steal(s, c, v).0 != Some(p)
    decreases |s.cpus| - v
  {
    if v < |s.cpus| && (v == c || s.cpus[v].queue == []) { StealTouchesReady(s, c, v + 1, p); }
  }

  lemma ScheduleSkipsExited(s: Sched, c: nat, p: nat)
    requires Inv(s) && c < |s.cpus| && p in s.tasks && s.tasks[p].state == Exited
    ensures p in Schedule(s, c).tasks && Schedule(s, c).tasks[p].state == Exited && Schedule(s, c).cpus[c].current != p
  {
    RequeueMid(s, c);
    var r := Requeue(s, c);
    assert CurrentOk(s, c);
    forall d, k | 0 <= d < |r.cpus| && 0 <= k < |r.cpus[d].queue| ensures r.cpus[d].queue[k] != p {
      assert QueueOk(r, d) && QueuedOk(r, d, r.cpus[d].queue[k]);
    }
    StealTouchesReady(r, c, 0, p);
    PickMid(r, c);
    PickKeepsIdle(r, c);
  }

  /** An exited task stays exited, whatever happens later, and every schedule of its CPU takes
      it off that CPU. */
  lemma {:induction false} ExitedForGood(s: Sched, ops: seq<Op>, p: nat)
    requires Inv(s) && p in s.tasks && s.tasks[p].state == Exited
    ensures p in Run(s, ops).tasks && Run(s, ops).tasks[p].state == Exited
    decreases |ops|
  {
    if ops != [] {
      StepInv(s, ops[0]);
      ExitedStep(s, ops[0], p);
      ExitedForGood(Step(s, ops[0]), ops[1..], p);
    }
  }

  lemma ExitedStep(s: Sched, op: Op, p: nat)
    requires Inv(s) && p in s.tasks && s.tasks[p].state == Exited
    ensures p in Step(s, op).tasks && Step(s, op).tasks[p].state == Exited
  {
    if Admits(s, op) {
      match op
      case Yield(c) => ScheduleSkipsExited(s, c, p);
      case Tick(c) =>
        TickInv(s, c);
        if TimerTick(s, c).cpus[c].resched { ScheduleSkipsExited(TimerTick(s, c), c, p); }
      case _ =>
    }
  }

  // ---------------------------------------------------------------- bounded waiting

  /** p waits at position k of CPU c's queue. */
  ghost predicate Waits(s: Sched, p: nat, c: nat, k: nat) {
    c < |s.cpus| && k < |s.cpus[c].queue| && s.cpus[c].queue[k] == p
  }

  predicate IsRunning(s: Sched, p: nat) {
    p in s.tasks && s.tasks[p].state == Running
  }

  /** p is running at some point of the run. */
  predicate RunsDuring(s: Sched, ops: seq<Op>, p: nat)
    requires |s.cpus| >= 1
    decreases |ops|
  {
    IsRunning(s, p) || (ops != [] && RunsDuring(Step(s, ops[0]), ops[1..], p))
  }

  /** The operation runs task_schedule on CPU c. */
  predicate Schedules(s: Sched, op: Op, c: nat)
    requires c < |s.cpus|
  {
    op == Yield(c) || (op == Tick(c) && TimerTick(s, c).cpus[c].resched)
  }

  /** How often the run calls task_schedule on CPU c. */
  function ScheduleCalls(s: Sched, ops: seq<Op>, c: nat): nat
    requires c < |s.cpus|
    decreases |ops|
  {
    if ops == [] then 0
    else (if Schedules(s, ops[0], c) then 1 else 0) + ScheduleCalls(Step(s, ops[0]), ops[1..], c)
  }

  function Ticks(ops: seq<Op>, c: nat): nat
    decreases |ops|
  {
    if ops == [] then 0 else (if ops[0] == Tick(c) then 1 else 0) + Ticks(ops[1..], c)
  }

  /** p has been dispatched, or is at the same place in line or further ahead. */
  ghost predicate Advanced(s: Sched, p: nat, c: nat, k: int) {
    IsRunning(s, p) || exists j :: 0 <= j <= k && Waits(s, p, c, j)
  }

  /** task_schedule on c dispatches the head of c's queue and moves all others one up. */
  lemma OwnSchedule(s: Sched, p: nat, c: nat, k: nat)
    requires Inv(s) && Waits(s, p, c, k)
    ensures if k == 0 then IsRunning(Schedule(s, c), p) else Waits(Schedule(s, c), p, c, k - 1)
  {
    RequeueMid(s, c);
    var q := Requeue(s, c).cpus[c].queue;
    assert q[k] == q[..|s.cpus[c].queue|][k] == p;
    var (o, s1) := Pick(Requeue(s, c), c);
    assert o == Some(q[0]);
    if k > 0 {
      assert q[1..][k - 1] == p;
    }
  }

  /** Stealing by another CPU takes at most the head of c's queue. */
  lemma {:induction false} StealAdvances(s: Sched, d: nat, v: nat, p: nat, c: nat, k: nat)
    requires Waits(s, p, c, k) && d < |s.cpus|
    ensures var (o, s1) := Steal(s, d, v); o == Some(p) || Waits(s1, p, c, k) || (k > 0 && Waits(s1, p, c, k - 1))
    decreases |s.cpus| - v
  {
    if v < |s.cpus| && (v == d || s.cpus[v].queue == []) { StealAdvances(s, d, v + 1, p, c, k); }
  }

  lemma OtherSchedule(s: Sched, d: nat, p: nat, c: nat, k: nat)
    requires Inv(s) && Waits(s, p, c, k) && d < |s.cpus| && d != c
    ensures Advanced(Schedule(s, d), p, c, k)
  {
    RequeueMid(s, d);
    var r := Requeue(s, d);
    assert Waits(r, p, c, k);
    if r.cpus[d].queue == [] {
      StealAdvances(r, d, 0, p, c, k);
    }
    var t := Schedule(s, d);
    if !IsRunning(t, p) {
      assert Waits(t, p, c, k) || (k > 0 && Waits(t, p, c, k - 1));
    }
  }

  /** One step: the task runs, or stays in line without losing ground; a schedule of its own
      CPU moves it up. */
  lemma StepAdvances(s: Sched, op: Op, p: nat, c: nat, k: nat)
    requires Inv(s) && Waits(s, p, c, k)
    ensures Advanced(Step(s, op), p, c, if Schedules(s, op, c) then k - 1 else k)
  {
    if Admits(s, op) {
      match op
      case Yield(d) =>
        if d == c { OwnSchedule(s, p, c, k); } else { OtherSchedule(s, d, p, c, k); }
      case Tick(d) =>
        var s1 := TimerTick(s, d);
        TickInv(s, d);
        assert Waits(s1, p, c, k);
        if s1.cpus[d].resched {
          if d == c { OwnSchedule(s1, p, c, k); } else { OtherSchedule(s1, d, p, c, k); }
        }
      case _ => assert Waits(Step(s, op), p, c, k);
    } else {
      assert Waits(Step(s, op), p, c, k);
    }
  }

  /** A task at position k is dispatched after at most k + 1 calls of task_schedule on its
      CPU, whatever creates, forks, exits and steals happen meanwhile. */
  lemma {:induction false} BoundedWaiting(s: Sched, ops: seq<Op>, p: nat, c: nat, k: nat)
    requires Inv(s) && Waits(s, p, c, k)
    requires ScheduleCalls(s, ops, c) >= k + 1
    ensures RunsDuring(s, ops, p)
    decreases |ops|
  {
    if !IsRunning(s, p) {
      var s1 := Step(s, ops[0]);
      StepInv(s, ops[0]);
      StepAdvances(s, ops[0], p, c, k);
      if !IsRunning(s1, p) {
        var j :| 0 <= j <= (if Schedules(s, ops[0], c) then k - 1 else k) && Waits(s1, p, c, j);
        BoundedWaiting(s1, ops[1..], p, c, j);
      }
    }
  }

  /** How many ticks CPU c can take before it must schedule, given a waiting task. */
  function TicksLeft(s: Sched, c: nat): nat
    requires c < |s.cpus|
  {
    var t := TaskAt(s, s.cpus[c].current);
    if s.cpus[c].resched || t.state != Running || t.id == 0 || t.slice == 0 then 1 else t.slice
  }

  /** A step on another CPU, or one that does not schedule c, uses up no time of c's. */
  lemma TickAdvances(s: Sched, op: Op, p: nat, c: nat, k: nat) returns (j: nat)
    requires Inv(s) && Waits(s, p, c, k) && !IsRunning(Step(s, op), p)
    ensures Waits(Step(s, op), p, c, j)
    ensures TIMESLICE * j + TicksLeft(Step(s, op), c) <=
      TIMESLICE * k + TicksLeft(s, c) - (if op == Tick(c) then 1 else 0)
  {
    var s1 := Step(s, op);
    StepInv(s, op);
    StepAdvances(s, op, p, c, k);
    j :| 0 <= j <= (if Schedules(s, op, c) then k - 1 else k) && Waits(s1, p, c, j);
    assert CurrentOk(s1, c) && CurrentOk(s, c);
    if !Schedules(s, op, c) {
      TimeKept(s, op, p, c, k);
    }
  }

  lemma TimeKept(s: Sched, op: Op, p: nat, c: nat, k: nat)
    requires Inv(s) && Waits(s, p, c, k) && !Schedules(s, op, c)
    ensures TicksLeft(Step(s, op), c) <= TicksLeft(s, c) - (if op == Tick(c) then 1 else 0)
  {
    assert CurrentOk(s, c);
    if Admits(s, op) {
      match op
      case Yield(d) => ScheduleElsewhere(s, d, c);
      case Tick(d) =>
        if d != c { TickElsewhere(s, d, c); }
      case Create(q) => assert s.cpus[c].current != q;
      case Fork(_, q) => assert s.cpus[c].current != q;
      case Exit(_) =>
      case Request(_) =>
    }
  }

  /** The same task runs on CPU c, with the same time left. */
  ghost predicate SameCurrent(s: Sched, r: Sched, c: nat)
    requires c < |s.cpus|
  {
    && c < |r.cpus| && r.cpus[c].current == s.cpus[c].current && r.cpus[c].resched == s.cpus[c].resched
    && TaskAt(r, s.cpus[c].current) == TaskAt(s, s.cpus[c].current)
  }

  lemma TickElsewhere(s: Sched, d: nat, c: nat)
    requires Inv(s) && d < |s.cpus| && c < |s.cpus| && d != c
    ensures TicksLeft(Step(s, Tick(d)), c) == TicksLeft(s, c) && SameCurrent(s, Step(s, Tick(d)), c)
  {
    var s1 := TimerTick(s, d);
    TickInv(s, d);
    assert CurrentOk(s, d) && CurrentOk(s, c);
    assert TicksLeft(s1, c) == TicksLeft(s, c);
    if s1.cpus[d].resched { ScheduleElsewhere(s1, d, c); }
  }

  /** Scheduling on d leaves the current task of another CPU alone. */
  lemma ScheduleElsewhere(s: Sched, d: nat, c: nat)
    requires Inv(s) && d < |s.cpus| && c < |s.cpus| && d != c
    ensures TicksLeft(Schedule(s, d), c) == TicksLeft(s, c) && SameCurrent(s, Schedule(s, d), c)
  {
    hide Pick, Steal, Requeue, Dispatch, QueueOk, Placed, Schedule;
    var r := Schedule(s, d);
    ScheduleInv(s, d);
    CurrentKnown(s, c);
    CurrentKnown(s, d);
    CurrentKnown(r, c);
    CurrentKnown(r, d);
    ScheduleDecides(s, d);
    var v := SomeVictim(s, d, |s.cpus|);
    assert r.cpus[c].current == s.cpus[c].current && r.cpus[c].resched == s.cpus[c].resched;
    ScheduleSetsTasks(s, d, s.cpus[c].current);
  }

  /** A task at position k runs within 4 (k + 1) timer ticks of its CPU. */
  lemma {:induction false} BoundedWaitingInTicks(s: Sched, ops: seq<Op>, p: nat, c: nat, k: nat)
    requires Inv(s) && Waits(s, p, c, k)
    requires Ticks(ops, c) >= 4 * (k + 1)
    ensures RunsDuring(s, ops, p)
  {
    assert CurrentOk(s, c);
    RunsInTime(s, ops, p, c, k);
  }

  lemma {:induction false} RunsInTime(s: Sched, ops: seq<Op>, p: nat, c: nat, k: nat)
    requires Inv(s) && Waits(s, p, c, k)
    requires Ticks(ops, c) >= TIMESLICE * k + TicksLeft(s, c)
    ensures RunsDuring(s, ops, p)
    decreases |ops|
  {
    if !IsRunning(s, p) {
      var s1 := Step(s, ops[0]);
      StepInv(s, ops[0]);
      if !IsRunning(s1, p) {
        var j := TickAdvances(s, ops[0], p, c, k);
        RunsInTime(s1, ops[1..], p, c, j);
      }
    }
  }

  /** The current task of CPU c is still p, running, with n ticks of its slice left. */
  ghost predicate Keeps(s: Sched, c: nat, p: nat, n: nat) {
    && c < |s.cpus| && s.cpus[c].current == p && !s.cpus[c].resched
    && p in s.tasks && s.tasks[p].id != 0 && s.tasks[p].state == Running && s.tasks[p].slice == n
  }

  /** The operations that take a task off CPU c before its time. */
  predicate CutsShort(op: Op, c: nat) {
    op == Exit(c) || op == Request(c) || op == Yield(c)
  }

  lemma SliceStep(s: Sched, op: Op, c: nat, p: nat, n: nat)
    requires Inv(s) && Keeps(s, c, p, n) && !CutsShort(op, c) && (op == Tick(c) ==> n >= 2)
    ensures Keeps(Step(s, op), c, p, if op == Tick(c) then n - 1 else n)
  {
    if Admits(s, op) {
      match op
      case Yield(d) => ScheduleElsewhere(s, d, c);
      case Tick(d) => if d != c { TickElsewhere(s, d, c); }
      case Exit(d) => assert CurrentOk(s, d) && CurrentOk(s, c);
      case _ =>
    }
  }

  /** A task keeps its CPU for its whole slice: whatever is created, forked, stolen, exited or
      scheduled elsewhere, it runs until the slice's last tick, unless it exits or gives way. */
  lemma {:induction false} SliceLasts(s: Sched, ops: seq<Op>, c: nat, p: nat, n: nat)
    requires Inv(s) && Keeps(s, c, p, n) && Ticks(ops, c) < n
    requires forall k :: 0 <= k < |ops| ==> !CutsShort(ops[k], c)
    ensures Keeps(Run(s, ops), c, p, n - Ticks(ops, c))
    decreases |ops|
  {
    if ops != [] {
      StepInv(s, ops[0]);
      SliceStep(s, ops[0], c, p, n);
      SliceLasts(Step(s, ops[0]), ops[1..], c, p, if ops[0] == Tick(c) then n - 1 else n);
    }
  }

  function IdleAddresses(n: nat): (a: set<nat>)
    ensures forall p :: p in a <==> 1 <= p <= n
  {
    Below(n + 1) - {0}
  }

  /** The state after task_init_per_cpu on every CPU. */
  function Boot(n: nat): Sched
    requires n >= 1
  {
    Sched(seq(n, c requires 0 <= c < n => Cpu([], c + 1, c + 1, false)),
          map p | p in IdleAddresses(n) :: Task(0, Running, p - 1, 0), 1)
  }

  lemma BootInv(n: nat)
    requires n >= 1
    ensures Inv(Boot(n))
  {
  }
}
