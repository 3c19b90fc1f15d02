/** The run queue of kernel/sched.c on one CPU: a doubly linked list and a priority scan. */
module Scheduler {

  datatype TaskState = Running | Ready | Blocked | Zombie

  class Task {
    var priority: int
    var state: TaskState
    var next: Task?
    var prev: Task?

    constructor (p: int)
      ensures priority == p && state == Ready && next == null && prev == null
    {
      priority, state, next, prev := p, Ready, null, null;
    }
  }

  // ----- The choice, on values

  datatype Info = Info(priority: int, runnable: bool)

  /** The scan of pick_next_task: a later task wins only with a higher priority. */
  function Best(s: seq<Info>): (b: int)
    ensures -1 <= b < |s| && (b >= 0 ==> s[b].runnable)
  {
    if s == [] then -1
    else
      var n := |s| - 1;
      var b := Best(s[..n]);
      if s[n].runnable && s[n].priority > (if b < 0 then -1 else s[b].priority) then n else b
  }

  /** The choice is the first of the runnable tasks of the highest priority, if that is not negative. */
  lemma {:induction false} BestIsFirstHighest(s: seq<Info>)
    ensures Best(s) < 0 <==> forall i :: 0 <= i < |s| && s[i].runnable ==> s[i].priority < 0
    ensures Best(s) >= 0 ==> s[Best(s)].priority >= 0
    ensures Best(s) >= 0 ==> forall i :: 0 <= i < |s| && s[i].runnable ==> s[i].priority <= s[Best(s)].priority
    ensures Best(s) >= 0 ==> forall i :: 0 <= i < Best(s) && s[i].runnable ==> s[i].priority < s[Best(s)].priority
  {
    if s != [] {
      var t := s[..|s| - 1];
      BestIsFirstHighest(t);
      assert forall i :: 0 <= i < |t| ==> t[i] == s[i];
      assert s[|s| - 1].runnable && s[|s| - 1].priority >= 0 ==> Best(s) >= 0;
    }
  }

  function Follower(q: seq<Task>, i: nat): Task?
    requires i < |q|
  {
    if i + 1 < |q| then q[i + 1] else null
  }

  function Leader(q: seq<Task>, i: nat): Task?
    requires i < |q|
  {
    if i > 0 then q[i - 1] else null
  }

  class Cpu {
    var head: Task?
    var tail: Task?
    var current: Task?
    var idle: Task
    ghost var queue: seq<Task>   // in order of enqueuing

    /** The list behind head and tail is the queue, both ways. */
    ghost predicate Linked()
      reads `head, `tail, `queue, queue`next, queue`prev
    {
      && (forall i, j :: 0 <= i < j < |queue| ==> queue[i] != queue[j])
      && head == (if queue == [] then null else queue[0])
      && tail == (if queue == [] then null else queue[|queue| - 1])
      && (forall i :: 0 <= i < |queue| ==> queue[i].next == Follower(queue, i))
      && (forall i :: 0 <= i < |queue| ==> queue[i].prev == Leader(queue, i))
    }

    ghost predicate Valid()
      reads this, queue
    {
      && Linked()
      && (forall t :: t in queue && t.state == Running ==> t == current)
      && (current != null ==> current in queue)
      && idle in queue && (idle.state == Ready || idle.state == Running) && idle.priority >= 0
    }

    ghost function Infos(): (s: seq<Info>)
      reads this, queue
      ensures |s| == |queue|
    {
      seq(|queue|, i requires 0 <= i < |queue| reads this, queue =>
        Info(queue[i].priority, queue[i].state == Ready || queue[i].state == Running))
    }

    /** sched_init and sched_init_cpu: the idle task is the first in the queue. */
    constructor (idleTask: Task)
      requires idleTask.priority == 0
      modifies idleTask
      ensures Valid() && queue == [idleTask] && idle == idleTask && current == null && idleTask.priority == 0
    {
      head, tail, current, idle := idleTask, idleTask, null, idleTask;
      queue := [idleTask];
      new;
      idleTask.next, idleTask.prev, idleTask.state := null, null, Ready;
    }

    /** The pointer part of enqueue_task. */
    method Link(task: Task)
      requires Linked() && task !in queue
      modifies this`head, this`tail, this`queue, task`next, task`prev, queue`next
      ensures Linked() && queue == old(queue) + [task]
    {
      task.next := null;
      task.prev := tail;
      if tail != null {
        tail.next := task;
      } else {
        head := task;
      }
      tail := task;
      ghost var q := queue;
      queue := queue + [task];
      Extended(q, task);
    }

    /** What the pointers of a queue look like after a task was put behind it. */
    lemma Extended(q: seq<Task>, task: Task)
      requires queue == q + [task] && task !in q && forall i, j :: 0 <= i < j < |q| ==> q[i] != q[j]
      requires head == (if q == [] then task else q[0]) && tail == task
      requires forall i :: 0 <= i < |q| ==> q[i].next == if i + 1 < |q| then q[i + 1] else task
      requires forall i :: 0 <= i < |q| ==> q[i].prev == Leader(q, i)
      requires task.next == null && task.prev == if q == [] then null else q[|q| - 1]
      ensures Linked()
    {
      forall i | 0 <= i < |queue|
        ensures queue[i].next == Follower(queue, i) && queue[i].prev == Leader(queue, i)
      {
        if i < |q| {
          assert queue[i] == q[i] && q[i].next == if i + 1 < |q| then q[i + 1] else task;
          assert i + 1 < |q| ==> queue[i + 1] == q[i + 1];
        }
      }
    }

    /** enqueue_task: the task goes to the end. */
    method Enqueue(task: Task)
      requires Valid() && task !in queue
      modifies this`head, this`tail, this`queue, task, queue`next
      ensures Valid() && queue == old(queue) + [task] && task.state == Ready && task.priority == old(task.priority)
    {
      hide Linked;
      Link(task);
      task.state := Ready;
    }

    /** pick_next_task: the list is walked from the head. */
    method PickNext() returns (best: Task)
      requires Linked() && forall t :: t in queue ==> t.state != Running
      ensures best == if Best(Infos()) >= 0 then queue[Best(Infos())] else idle
    {
      var b: Task? := null;
      var bestPriority := -1;
      ghost var s, k := Infos(), 0;
      hide Linked;
      Ends();
      var task := head;
      while task != null
        invariant 0 <= k <= |queue| && task == (if k < |queue| then queue[k] else null)
        invariant b == (if Best(s[..k]) < 0 then null else queue[Best(s[..k])])
        invariant bestPriority == if Best(s[..k]) < 0 then -1 else s[Best(s[..k])].priority
        decreases |queue| - k
      {
        assert s[..k + 1][..k] == s[..k] && queue[k] in queue;
        Walk(k);
        if task.state == Ready && task.priority > bestPriority {
          b := task;
          bestPriority := task.priority;
        }
        task := task.next;
        k := k + 1;
      }
      assert s[..k] == s;
      best := if b == null then idle else b;
    }

    lemma Ends()
      requires Linked()
      ensures head == (if queue == [] then null else queue[0])
    {
    }

    lemma Walk(k: nat)
      requires Linked() && k < |queue|
      ensures queue[k].next == Follower(queue, k)
    {
    }

    /** The idle task is always there to run. */
    lemma SomeoneRuns()
      requires Valid()
      ensures Best(Infos()) >= 0
    {
      var s := Infos();
      var i :| 0 <= i < |queue| && queue[i] == idle;
      assert s[i].runnable && forall j :: 0 <= j < |s| ==> queue[j] in queue && s[j].priority == queue[j].priority;
      BestIsFirstHighest(s);
    }

    /** The choice of schedule: no runnable task has a higher priority, none of the same stands earlier in the queue. */
    lemma FirstHighest(k: nat)
      requires Valid() && k == Best(Infos())
      ensures forall i :: 0 <= i < |queue| && (queue[i].state == Ready || queue[i].state == Running)
                ==> queue[i].priority <= queue[k].priority && (i < k ==> queue[i].priority < queue[k].priority)
    {
      hide Best, Linked;
      var s := Infos();
      assert forall j :: 0 <= j < |s| ==> queue[j] in queue && s[j].priority == queue[j].priority;
      BestIsFirstHighest(s);
      forall i | 0 <= i < |queue| && (queue[i].state == Ready || queue[i].state == Running)
        ensures queue[i].priority <= queue[k].priority && (i < k ==> queue[i].priority < queue[k].priority)
      {
        assert s[i].runnable && s[i].priority == queue[i].priority;
      }
    }

    /** schedule: a task that was running may be chosen again. */
    method Schedule()
      requires Valid()
      modifies this`current, queue
      ensures Valid() && old(Best(Infos())) >= 0 && current == queue[old(Best(Infos()))] && current.state == Running
      ensures forall t :: t in queue ==> t.priority == old(t.priority) && (t.state == Running <==> t == current)
      ensures forall t :: t in queue && t != current && old(t.state) != Running ==> t.state == old(t.state)
      ensures Infos() == old(Infos())
    {
      hide Linked, Best;
      Preempt();
      SomeoneRuns();
      var next := PickNext();
      Dispatch(next, Best(Infos()));
    }

    /** The running task gives up the CPU. */
    method Preempt()
      requires Valid()
      modifies queue`state
      ensures Valid() && Infos() == old(Infos())
      ensures forall t :: t in queue ==> t.state == if old(t.state) == Running then Ready else old(t.state)
    {
      hide Linked;
      if current != null && current.state == Running {
        current.state := Ready;
      }
    }

    /** The chosen task gets it. */
    method Dispatch(next: Task, ghost k: nat)
      requires Valid() && k < |queue| && next == queue[k] && Infos()[k].runnable
      requires forall t :: t in queue ==> t.state != Running
      modifies this`current, next`state
      ensures Valid() && Infos() == old(Infos()) && current == next
      ensures forall t :: t in queue ==> t.state == if t == next then Running else old(t.state)
    {
      hide Linked;
      next.state := Running;
      current := next;
    }

    /** yield */
    method Yield()
      requires Valid()
      modifies this`current, queue
      ensures Valid() && old(Best(Infos())) >= 0 && current == queue[old(Best(Infos()))] && Infos() == old(Infos())
      ensures forall t :: t in queue ==> (t.state == Running <==> t == current)
    {
      Schedule();
    }

    /** However often it yields, the CPU goes to the same task: the first of the highest priority.
        Every other task that can run stays ready. */
    method YieldMany(n: nat)
      requires Valid()
      modifies this`current, queue
      ensures Valid() && old(Best(Infos())) >= 0 && Infos() == old(Infos())
      ensures n == 0 ==> current == old(current)
      ensures n > 0 ==> current == queue[old(Best(Infos()))]
                        && forall t :: t in queue ==> (t.state == Running <==> t == current)
    {
      hide Linked, Best;
      SomeoneRuns();
      var i := 0;
      while i < n
        invariant 0 <= i <= n && Valid() && Infos() == old(Infos())
        invariant i == 0 ==> current == old(current)
        invariant i > 0 ==> current == queue[old(Best(Infos()))]
                            && forall t :: t in queue ==> (t.state == Running <==> t == current)
      {
        Yield();
        i := i + 1;
      }
    }

    /** task_block of a task other than the idle task: it gets the state and loses the CPU. */
    method Block(state: TaskState)
      requires Valid() && current != null && current != idle
      modifies this`current, queue
      ensures Valid() && Best(Infos()) >= 0 && current == queue[Best(Infos())]
      ensures forall t :: t in queue ==> t.priority == old(t.priority) && (t.state == Running <==> t == current)
      ensures state == Blocked || state == Zombie ==> old(current) != current && old(current).state == state
    {
      hide Linked, Best;
      ghost var was := current;
      current.state := state;
      ghost var s := Infos();
      Schedule();
      if state == Blocked || state == Zombie {
        ghost var i :| 0 <= i < |queue| && queue[i] == was;
        assert !s[i].runnable;
      }
    }

    /** task_wakeup: only a blocked task is made ready; it runs at the next schedule that prefers it. */
    method Wakeup(task: Task)
      requires Valid() && task in queue
      modifies task`state
      ensures Valid() && task.state == if old(task.state) == Blocked then Ready else old(task.state)
    {
      if task.state == Blocked {
        task.state := Ready;
      }
    }
  }
}
