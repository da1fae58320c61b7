/** The worker pool of lib/auxiliary/thread_pool.py as interleaved atomic steps of the
    workers, of the threads that add tasks and of the thread that waits. */
module ThreadPool {

  type Value = int

  datatype Outcome = Returned(value: Value) | Raised

  /** A task is known by what its function will do when it is called. */
  datatype Task = Task(outcome: Outcome)

  /** A worker that fetched a task looks up the list that its result will be appended to
      (`pool.results.append` is bound) and then calls the function. */
  datatype Worker = Idle | Fetched(task: Task) | Running(task: Task, list: nat) | Finishing

  /** Where the waiting thread is: polling, past the poll, or holding its copy. */
  datatype Waiter = Free | Polling | Passed | Copied(result: seq<Value>)

  /** `list` numbers the results list now in place; a reset installs a new one. */
  datatype Pool = Pool(capacity: nat, queue: seq<Task>, unfinished: int, workers: seq<Worker>,
                       list: nat, results: seq<Value>, waiter: Waiter)

  datatype Step =
    | Put(task: Task)          // add_task: Queue.put
    | Get(w: nat)              // Queue.get
    | Bind(w: nat)             // pool.results.append is looked up, the function called
    | Finish(w: nat)           // the function returned, or raised
    | TaskDone(w: nat)         // Queue.task_done
    | StartWait | PassPoll | CopyResults | ResetResults

  function Initial(threads: nat): Pool {
    Pool(threads, [], 0, seq(threads, _ => Idle), 0, [], Free)
  }

  /** A queue of capacity 0 is unbounded. */
  predicate Enabled(p: Pool, s: Step) {
    match s
    case Put(_) => p.capacity == 0 || |p.queue| < p.capacity
    case Get(w) => w < |p.workers| && p.workers[w].Idle? && p.queue != []
    case Bind(w) => w < |p.workers| && p.workers[w].Fetched?
    case Finish(w) => w < |p.workers| && p.workers[w].Running?
    case TaskDone(w) => w < |p.workers| && p.workers[w].Finishing?
    case StartWait => p.waiter.Free?
    case PassPoll => p.waiter.Polling? && p.unfinished <= 0
    case CopyResults => p.waiter.Passed?
    case ResetResults => p.waiter.Copied?
  }

  function Next(p: Pool, s: Step): Pool
    requires Enabled(p, s)
  {
    match s
    case Put(t) => p.(queue := p.queue + [t], unfinished := p.unfinished + 1)
    case Get(w) => p.(queue := p.queue[1..], workers := p.workers[w := Fetched(p.queue[0])])
    case Bind(w) => p.(workers := p.workers[w := Running(p.workers[w].task, p.list)])
    case Finish(w) =>
      var Running(task, list) := p.workers[w];
      var q := p.(workers := p.workers[w := Finishing]);
      if task.outcome.Returned? && list == p.list then q.(results := p.results + [task.outcome.value]) else q
    case TaskDone(w) => p.(workers := p.workers[w := Idle], unfinished := p.unfinished - 1)
    case StartWait => p.(waiter := Polling)
    case PassPoll => p.(waiter := Passed)
    case CopyResults => p.(waiter := Copied(p.results))
    case ResetResults => p.(list := p.list + 1, results := [], waiter := Free)
  }

  predicate IsWorkerStep(s: Step) {
    s.Get? || s.Bind? || s.Finish? || s.TaskDone?
  }

  predicate Runnable(p: Pool, steps: seq<Step>)
    decreases |steps|
  {
    steps == [] || (Enabled(p, steps[0]) && Runnable(Next(p, steps[0]), steps[1..]))
  }

  function Exec(p: Pool, steps: seq<Step>): Pool
    requires Runnable(p, steps)
    decreases |steps|
  {
    if steps == [] then p else Exec(Next(p, steps[0]), steps[1..])
  }

  /** The window of a wait between its last look at the unfinished count and its return. */
  predicate Closing(p: Pool) {
    p.waiter.Passed? || p.waiter.Copied?
  }

  predicate AddsResult(s: Step) {
    s.Put? && s.task.outcome.Returned?
  }

  /** No task with a result is added in such a window; one that raises does no harm. */
  predicate NoOverlap(p: Pool, steps: seq<Step>)
    requires Runnable(p, steps)
    decreases |steps|
  {
    steps == [] ||
    ((AddsResult(steps[0]) ==> !Closing(p)) && NoOverlap(Next(p, steps[0]), steps[1..]))
  }

  /** The tasks added since the last wait returned, given those pending before the steps. */
  function SinceReset(before: seq<Task>, steps: seq<Step>): seq<Task>
    decreases |steps|
  {
    if steps == [] then before else SinceReset(Added(before, steps[0]), steps[1..])
  }

  function Added(before: seq<Task>, s: Step): seq<Task> {
    match s case Put(t) => before + [t] case ResetResults => [] case _ => before
  }

  /** The results of the tasks that finish without an exception. */
  function Results(tasks: seq<Task>): multiset<Value> {
    if tasks == [] then multiset{}
    else (if tasks[0].outcome.Returned? then multiset{tasks[0].outcome.value} else multiset{}) + Results(tasks[1..])
  }

  // ---------------------------------------------------------------- counting

  /** Whether the task adds a result equal to v. */
  function Yields(t: Task, v: Value): nat {
    if t.outcome == Returned(v) then 1 else 0
  }

  function CountYields(tasks: seq<Task>, v: Value): nat {
    if tasks == [] then 0 else Yields(tasks[0], v) + CountYields(tasks[1..], v)
  }

  lemma {:induction false} ResultsCount(tasks: seq<Task>, v: Value)
    ensures Results(tasks)[v] == CountYields(tasks, v)
  {
    if tasks != [] { ResultsCount(tasks[1..], v); }
  }

  function Busy(workers: seq<Worker>): nat {
    if workers == [] then 0 else BusyOf(workers[0]) + Busy(workers[1..])
  }

  function BusyOf(w: Worker): nat {
    if w.Idle? then 0 else 1
  }

  /** Results equal to v that running workers still owe. */
  function Owed(workers: seq<Worker>, v: Value): nat {
    if workers == [] then 0 else OwedBy(workers[0], v) + Owed(workers[1..], v)
  }

  function OwedBy(w: Worker, v: Value): nat {
    if w.Fetched? || w.Running? then Yields(w.task, v) else 0
  }

  /** Worker steps left for the tasks that the workers already hold. */
  function Effort(workers: seq<Worker>): nat {
    if workers == [] then 0 else EffortOf(workers[0]) + Effort(workers[1..])
  }

  function EffortOf(w: Worker): nat {
    match w case Idle => 0 case Fetched(_) => 3 case Running(_, _) => 2 case Finishing => 1
  }

  lemma {:induction false} WorkerUpdate(workers: seq<Worker>, w: nat, x: Worker, v: Value)
    requires w < |workers|
    ensures Busy(workers[w := x]) + BusyOf(workers[w]) == Busy(workers) + BusyOf(x)
    ensures Owed(workers[w := x], v) + OwedBy(workers[w], v) == Owed(workers, v) + OwedBy(x, v)
    ensures Effort(workers[w := x]) + EffortOf(workers[w]) == Effort(workers) + EffortOf(x)
  {
    if w == 0 {
      assert workers[w := x][1..] == workers[1..];
    } else {
      assert workers[w := x][1..] == workers[1..][w - 1 := x];
      WorkerUpdate(workers[1..], w - 1, x, v);
    }
  }

  lemma {:induction false} AllIdle(workers: seq<Worker>, v: Value)
    ensures Busy(workers) == 0 <==> forall w :: 0 <= w < |workers| ==> workers[w].Idle?
    ensures Busy(workers) == 0 <==> Effort(workers) == 0
    ensures Busy(workers) == 0 ==> Owed(workers, v) == 0
  {
    if workers != [] {
      AllIdle(workers[1..], v);
      forall w | 0 < w < |workers| ensures workers[w] == workers[1..][w - 1] { }
    }
  }

  lemma {:induction false} CountAppend(tasks: seq<Task>, t: Task, v: Value)
    ensures CountYields(tasks + [t], v) == CountYields(tasks, v) + Yields(t, v)
  {
    if tasks != [] {
      assert (tasks + [t])[1..] == tasks[1..] + [t];
      CountAppend(tasks[1..], t, v);
    }
  }

  // ---------------------------------------------------------------- every interleaving

  /** Holds of every interleaving, overlapping ones included. */
  ghost predicate Counted(p: Pool) {
    p.unfinished == |p.queue| + Busy(p.workers)
  }

  lemma {:induction false} CountedNext(p: Pool, s: Step)
    requires Counted(p) && Enabled(p, s)
    ensures Counted(Next(p, s))
  {
    if IsWorkerStep(s) { WorkerUpdate(p.workers, s.w, Next(p, s).workers[s.w], 0); }
  }

  lemma {:induction false} InitialCounted(threads: nat, v: Value)
    ensures Counted(Initial(threads)) && Owed(Initial(threads).workers, v) == 0
  {
    AllIdle(Initial(threads).workers, v);
  }

  /** The unfinished count is the number of queued plus running tasks, always. */
  lemma {:induction false} AlwaysCounted(p: Pool, steps: seq<Step>)
    requires Counted(p) && Runnable(p, steps)
    ensures Counted(Exec(p, steps))
    decreases |steps|
  {
    if steps != [] {
      CountedNext(p, steps[0]);
      AlwaysCounted(Next(p, steps[0]), steps[1..]);
    }
  }

  /** A pool of n threads keeps n workers and never queues more than n tasks; a task can be
      added exactly while it queues fewer, without a limit if n is zero. */
  lemma {:induction false} PoolKeepsShape(threads: nat, steps: seq<Step>, t: Task)
    requires Runnable(Initial(threads), steps)
    ensures var p := Exec(Initial(threads), steps);
      && |p.workers| == threads && (threads > 0 ==> |p.queue| <= threads)
      && (Enabled(p, Put(t)) <==> threads == 0 || |p.queue| < threads)
  {
    KeepsShape(Initial(threads), steps, threads);
  }

  lemma {:induction false} KeepsShape(p: Pool, steps: seq<Step>, threads: nat)
    requires Runnable(p, steps) && p.capacity == threads
    requires threads > 0 ==> |p.queue| <= threads
    ensures var q := Exec(p, steps);
      q.capacity == threads && |q.workers| == |p.workers| && (threads > 0 ==> |q.queue| <= threads)
    decreases |steps|
  {
    if steps != [] { KeepsShape(Next(p, steps[0]), steps[1..], threads); }
  }

  /** The task that a step adds, and the one that a worker holds after fetching it. */
  function GivenBy(s: Step): seq<Task> {
    if s.Put? then [s.task] else []
  }

  function TakenBy(p: Pool, s: Step): seq<Task>
    requires Enabled(p, s)
  {
    if s.Get? && Next(p, s).workers[s.w].Fetched? then [Next(p, s).workers[s.w].task] else []
  }

  function Given(steps: seq<Step>): seq<Task>
    decreases |steps|
  {
    if steps == [] then [] else GivenBy(steps[0]) + Given(steps[1..])
  }

  function Taken(p: Pool, steps: seq<Step>): seq<Task>
    requires Runnable(p, steps)
    decreases |steps|
  {
    if steps == [] then [] else TakenBy(p, steps[0]) + Taken(Next(p, steps[0]), steps[1..])
  }

  lemma {:induction false} QueueInOrder(p: Pool, s: Step)
    requires Enabled(p, s)
    ensures p.queue + GivenBy(s) == TakenBy(p, s) + Next(p, s).queue
  {
    if s.Get? { assert p.queue == [p.queue[0]] + p.queue[1..]; }
  }

  /** Over every interleaving tasks are taken up in the order in which they were added. */
  lemma {:induction false} FirstInFirstOut(p: Pool, steps: seq<Step>)
    requires Runnable(p, steps)
    ensures p.queue + Given(steps) == Taken(p, steps) + Exec(p, steps).queue
    decreases |steps|
  {
    if steps != [] {
      var s, q, rest := steps[0], Next(p, steps[0]), steps[1..];
      QueueInOrder(p, s);
      FirstInFirstOut(q, rest);
      Regroup(p.queue, GivenBy(s), Given(rest));
      Regroup(TakenBy(p, s), q.queue, Given(rest));
      Regroup(TakenBy(p, s), Taken(q, rest), Exec(q, rest).queue);
    }
  }

  lemma {:induction false} Regroup(a: seq<Task>, b: seq<Task>, c: seq<Task>)
    ensures a + (b + c) == (a + b) + c
  {
  }

  /** Every result of a task added since the last reset is in the list, in the hands of a
      worker that will append it there, or still to be computed. */
  ghost predicate Conserved(p: Pool, added: seq<Task>, v: Value) {
    && Counted(p)
    && CountYields(added, v) == multiset(p.results)[v] + Owed(p.workers, v) + CountYields(p.queue, v)
    && (forall w :: 0 <= w < |p.workers| && p.workers[w].Running? && Yields(p.workers[w].task, v) > 0 ==>
         p.workers[w].list == p.list)
    && (Closing(p) ==> Owed(p.workers, v) == 0 && CountYields(p.queue, v) == 0)
    && (p.waiter.Copied? ==> multiset(p.waiter.result)[v] == multiset(p.results)[v])
  }

  /** Counted with no unfinished task: nothing is queued, running or owed. */
  lemma {:induction false} Quiet(p: Pool, v: Value)
    requires Counted(p) && p.unfinished == 0
    ensures p.queue == [] && Owed(p.workers, v) == 0
    ensures forall w :: 0 <= w < |p.workers| ==> p.workers[w].Idle?
  {
    AllIdle(p.workers, v);
  }

  lemma {:induction false} ConservedWorker(p: Pool, s: Step, added: seq<Task>, v: Value)
    requires Conserved(p, added, v) && Enabled(p, s) && IsWorkerStep(s)
    ensures Conserved(Next(p, s), added, v)
  {
    if s.Get? || s.Bind? { ConservedStart(p, s, added, v); } else { ConservedEnd(p, s, added, v); }
  }

  lemma {:induction false} ConservedStart(p: Pool, s: Step, added: seq<Task>, v: Value)
    requires Conserved(p, added, v) && Enabled(p, s) && (s.Get? || s.Bind?)
    ensures Conserved(Next(p, s), added, v)
  {
    CountedNext(p, s);
    WorkerUpdate(p.workers, s.w, Next(p, s).workers[s.w], v);
  }

  lemma {:induction false} ConservedEnd(p: Pool, s: Step, added: seq<Task>, v: Value)
    requires Conserved(p, added, v) && Enabled(p, s) && (s.Finish? || s.TaskDone?)
    ensures Conserved(Next(p, s), added, v)
  {
    CountedNext(p, s);
    WorkerUpdate(p.workers, s.w, Next(p, s).workers[s.w], v);
  }

  lemma {:induction false} ConservedOther(p: Pool, s: Step, added: seq<Task>, v: Value)
    requires Conserved(p, added, v) && Enabled(p, s) && !IsWorkerStep(s) && (AddsResult(s) ==> !Closing(p))
    ensures Conserved(Next(p, s), Added(added, s), v)
  {
    CountedNext(p, s);
    if p.unfinished <= 0 { Quiet(p, v); }
    if s.Put? {
      CountAppend(added, s.task, v);
      CountAppend(p.queue, s.task, v);
    }
    if s.ResetResults? { NothingOwed(p.workers, v); }
  }

  /** A worker that will add v owes it. */
  lemma {:induction false} NothingOwed(workers: seq<Worker>, v: Value)
    requires Owed(workers, v) == 0
    ensures forall w :: 0 <= w < |workers| && workers[w].Running? ==> Yields(workers[w].task, v) == 0
  {
    if workers != [] {
      NothingOwed(workers[1..], v);
      forall w | 0 < w < |workers| ensures workers[w] == workers[1..][w - 1] { }
    }
  }

  lemma {:induction false} AlwaysConserved(p: Pool, steps: seq<Step>, added: seq<Task>, v: Value)
    requires Conserved(p, added, v) && Runnable(p, steps) && NoOverlap(p, steps)
    ensures Conserved(Exec(p, steps), SinceReset(added, steps), v)
    decreases |steps|
  {
    if steps != [] {
      if IsWorkerStep(steps[0]) {
        ConservedWorker(p, steps[0], added, v);
      } else {
        ConservedOther(p, steps[0], added, v);
      }
      AlwaysConserved(Next(p, steps[0]), steps[1..], Added(added, steps[0]), v);
    }
  }

  /** What the wait is about to return holds exactly one result per task added since the
      previous wait returned that finishes without an exception. */
  ghost predicate Complete(p: Pool, added: seq<Task>) {
    p.waiter.Copied? ==> multiset(p.waiter.result) == Results(added)
  }

  ghost predicate AllConserved(p: Pool, added: seq<Task>) {
    forall v :: Conserved(p, added, v)
  }

  lemma {:induction false} ConservedIsComplete(p: Pool, added: seq<Task>)
    requires AllConserved(p, added)
    ensures Complete(p, added)
  {
    if p.waiter.Copied? {
      forall v ensures multiset(p.waiter.result)[v] == Results(added)[v] {
        assert Conserved(p, added, v);
        ResultsCount(added, v);
      }
    }
  }

  lemma {:induction false} StaysComplete(p: Pool, steps: seq<Step>, added: seq<Task>)
    requires AllConserved(p, added) && Runnable(p, steps) && NoOverlap(p, steps)
    ensures AllConserved(Exec(p, steps), SinceReset(added, steps))
    ensures Complete(Exec(p, steps), SinceReset(added, steps))
  {
    forall v ensures Conserved(Exec(p, steps), SinceReset(added, steps), v) {
      assert Conserved(p, added, v);
      AlwaysConserved(p, steps, added, v);
    }
    ConservedIsComplete(Exec(p, steps), SinceReset(added, steps));
  }

  /** Over every interleaving in which no task with a result is added after the last poll of
      a wait and before its return, tasks added while it is polling included, each wait
      returns every result. */
  lemma {:induction false} WaitReturnsEveryResult(threads: nat, steps: seq<Step>)
    requires Runnable(Initial(threads), steps) && NoOverlap(Initial(threads), steps)
    ensures Complete(Exec(Initial(threads), steps), SinceReset([], steps))
  {
    forall v ensures Conserved(Initial(threads), [], v) {
      InitialCounted(threads, v);
    }
    StaysComplete(Initial(threads), steps, []);
  }

  // ---------------------------------------------------------------- progress

  function Work(p: Pool): nat {
    4 * |p.queue| + Effort(p.workers)
  }

  /** While tasks are unfinished some worker can move, provided there is a worker. */
  lemma {:induction false} SomeWorkerCanMove(p: Pool)
    requires Counted(p) && p.workers != []
    ensures (exists s :: IsWorkerStep(s) && Enabled(p, s)) <==> p.unfinished > 0
  {
    AllIdle(p.workers, 0);
    if p.unfinished > 0 {
      if Busy(p.workers) > 0 {
        var w :| 0 <= w < |p.workers| && !p.workers[w].Idle?;
        var s := if p.workers[w].Fetched? then Bind(w) else if p.workers[w].Running? then Finish(w) else TaskDone(w);
        assert IsWorkerStep(s) && Enabled(p, s);
      } else {
        assert IsWorkerStep(Get(0)) && Enabled(p, Get(0));
      }
    }
  }

  /** Any schedule of worker steps brings the wait to its end after exactly four steps per
      queued task and what is left of the running ones, and cannot go on beyond that. */
  lemma {:induction false} WaitEnds(p: Pool, steps: seq<Step>)
    requires Counted(p) && Runnable(p, steps) && forall s :: s in steps ==> IsWorkerStep(s)
    ensures |steps| <= Work(p)
    ensures |steps| == Work(p) <==> Exec(p, steps).unfinished == 0
    decreases |steps|
  {
    AllIdle(p.workers, 0);
    if steps != [] {
      var s := steps[0];
      CountedNext(p, s);
      assert IsWorkerStep(s);
      WorkerUpdate(p.workers, s.w, Next(p, s).workers[s.w], 0);
      WaitEnds(Next(p, s), steps[1..]);
    }
  }

  // ---------------------------------------------------------------- tasks added during a wait

  /** Whatever happens afterwards, short of another such task in a closing window, waits
      return every result. */
  ghost predicate SafeFrom(p: Pool, added: seq<Task>) {
    forall steps: seq<Step> :: Runnable(p, steps) && NoOverlap(p, steps) ==>
      Complete(Exec(p, steps), SinceReset(added, steps))
  }

  /** Adding a task is safe exactly outside the closing window of a wait, or if it raises. */
  lemma {:induction false} PutIsSafeExactly(p: Pool, added: seq<Task>, t: Task)
    requires AllConserved(p, added) && Enabled(p, Put(t))
    ensures SafeFrom(Next(p, Put(t)), added + [t]) <==> !Closing(p) || t.outcome.Raised?
  {
    var q, now := Next(p, Put(t)), added + [t];
    if Closing(p) && t.outcome.Returned? {
      PutIsMissed(p, added, t.outcome.value);
    } else {
      forall u ensures Conserved(q, now, u) {
        assert Conserved(p, added, u);
        ConservedOther(p, Put(t), added, u);
      }
      forall steps: seq<Step> | Runnable(q, steps) && NoOverlap(q, steps)
        ensures Complete(Exec(q, steps), SinceReset(now, steps))
      {
        StaysComplete(q, steps, now);
      }
    }
  }

  /** In the window one more task with a result makes the wait return one too few, whether it
      has made its copy already or makes it next. */
  lemma {:induction false} PutIsMissed(p: Pool, added: seq<Task>, v: Value)
    requires AllConserved(p, added) && Closing(p) && Enabled(p, Put(Task(Returned(v))))
    ensures var q := Next(p, Put(Task(Returned(v))));
      && var steps := ToCopy(p);
      && Runnable(q, steps) && NoOverlap(q, steps) && Exec(q, steps).waiter.Copied?
      && multiset(Exec(q, steps).waiter.result)[v] + 1 == Results(SinceReset(added + [Task(Returned(v))], steps))[v]
    ensures !SafeFrom(Next(p, Put(Task(Returned(v)))), added + [Task(Returned(v))])
  {
    var t := Task(Returned(v));
    var q := Next(p, Put(t));
    assert Conserved(p, added, v);
    CountAppend(added, t, v);
    ResultsCount(added + [t], v);
    var steps := ToCopy(p);
    assert [CopyResults][1..] == [];
    assert Runnable(q, steps) && NoOverlap(q, steps) && SinceReset(added + [t], steps) == added + [t];
    assert !Complete(Exec(q, steps), SinceReset(added + [t], steps));
  }

  /** What is left of the wait up to its copy. */
  function ToCopy(p: Pool): seq<Step> {
    if p.waiter.Copied? then [] else [CopyResults]
  }

  /** The steps of worker 0 that take up a task. */
  function TakeUp(t: Task): seq<Step> {
    [Put(t), Get(0)] + [Bind(0)]
  }

  /** Workers finish what there is; in a closing window that adds no result. */
  lemma {:induction false} Drain(p: Pool, added: seq<Task>) returns (steps: seq<Step>)
    requires AllConserved(p, added) && p.workers != []
    ensures Runnable(p, steps) && forall s :: s in steps ==> IsWorkerStep(s)
    ensures var q := Exec(p, steps);
      && AllConserved(q, added) && q.unfinished == 0
      && q.waiter == p.waiter && q.capacity == p.capacity && q.list == p.list && |q.workers| == |p.workers|
    decreases Work(p)
  {
    assert Conserved(p, added, 0);
    if p.unfinished <= 0 {
      steps := [];
    } else {
      SomeWorkerCanMove(p);
      var s :| IsWorkerStep(s) && Enabled(p, s);
      forall v ensures Conserved(Next(p, s), added, v) {
        assert Conserved(p, added, v);
        ConservedWorker(p, s, added, v);
      }
      WorkerUpdate(p.workers, s.w, Next(p, s).workers[s.w], 0);
      var rest := Drain(Next(p, s), added);
      steps := [s] + rest;
      OneStep(p, s, rest, Next(p, s));
    }
  }

  /** Worse, its result can be lost to this wait and to every later one: from any such state
      there is a schedule in which the wait returns just what it would have returned without
      the task, and after which nothing is pending and no list holds a result. */
  lemma {:induction false} OverlapLosesResult(p: Pool, added: seq<Task>, v: Value)
    returns (before: seq<Step>, after: seq<Step>)
    requires AllConserved(p, added) && Closing(p) && p.workers != [] && Enabled(p, Put(Task(Returned(v))))
    ensures forall s :: s in before + after ==> !s.Put?
    ensures var steps := before + ([Put(Task(Returned(v)))] + after);
      && Runnable(p, steps)
      && var q := Exec(p, steps);
         q.waiter.Copied? && multiset(q.waiter.result) == Results(added)
         && Runnable(q, [ResetResults] + [Finish(0), TaskDone(0)])
         && var end := Exec(q, [ResetResults] + [Finish(0), TaskDone(0)]);
            end.waiter.Free? && end.results == [] && end.queue == [] && end.unfinished == 0
  {
    var t := Task(Returned(v));
    before := Drain(p, added);
    var d := Exec(p, before);
    assert Conserved(d, added, 0);
    Quiet(d, 0);
    after := [Get(0)] + ([Bind(0)] + ToCopy(p));
    var running := d.(unfinished := 1, workers := d.workers[0 := Running(t, d.list)]);
    var copied := running.(waiter := if p.waiter.Copied? then p.waiter else Copied(d.results));
    ToCopyRuns(running, copied);
    TakenUp(d, running, t, ToCopy(p));
    assert TakeUp(t) + ToCopy(p) == [Put(t)] + after;
    Append(p, before, [Put(t)] + after);
    ConservedIsComplete(d, added);
    CopyIsComplete(d, added);
    var late := copied.(list := d.list + 1, results := [], waiter := Free);
    LateFinish(d, late, t);
    OneStep(copied, ResetResults, [Finish(0), TaskDone(0)], late);
  }

  lemma {:induction false} ToCopyRuns(p: Pool, q: Pool)
    requires Closing(p) && q == if p.waiter.Copied? then p else p.(waiter := Copied(p.results))
    ensures Runnable(p, ToCopy(p)) && Exec(p, ToCopy(p)) == q
  {
    assert [CopyResults][1..] == [];
  }

  lemma {:induction false} CopyIsComplete(p: Pool, added: seq<Task>)
    requires AllConserved(p, added) && Closing(p)
    ensures multiset(p.results) == Results(added)
  {
    forall v ensures multiset(p.results)[v] == Results(added)[v] {
      assert Conserved(p, added, v);
      ResultsCount(added, v);
    }
  }

  lemma {:induction false} Append(p: Pool, a: seq<Step>, b: seq<Step>)
    requires Runnable(p, a) && Runnable(Exec(p, a), b)
    ensures Runnable(p, a + b) && Exec(p, a + b) == Exec(Exec(p, a), b)
    decreases |a|
  {
    if a == [] {
      assert a + b == b;
    } else {
      Append(Next(p, a[0]), a[1..], b);
      assert (a + b)[1..] == a[1..] + b;
    }
  }

  lemma {:induction false} TakenUp(p: Pool, running: Pool, t: Task, rest: seq<Step>)
    requires p.queue == [] && p.unfinished == 0 && p.workers != [] && p.workers[0].Idle? && Enabled(p, Put(t))
    requires running == p.(unfinished := 1, workers := p.workers[0 := Running(t, p.list)]) && Runnable(running, rest)
    ensures Runnable(p, TakeUp(t) + rest) && Exec(p, TakeUp(t) + rest) == Exec(running, rest)
  {
    var fetched := p.(unfinished := 1, workers := p.workers[0 := Fetched(t)]);
    assert fetched.workers[0 := Running(t, p.list)] == running.workers;
    OneStep(fetched, Bind(0), rest, running);
    assert [t][1..] == [] && p.queue + [t] == [t];
    TwoSteps(p, Put(t), Get(0), [Bind(0)] + rest, fetched);
    assert TakeUp(t) + rest == [Put(t), Get(0)] + ([Bind(0)] + rest);
  }

  /** A task that ends after its list was given away leaves no result. */
  lemma {:induction false} LateFinish(p: Pool, late: Pool, t: Task)
    requires p.workers != [] && p.workers[0].Idle? && p.unfinished == 0
    requires late == p.(unfinished := 1, workers := p.workers[0 := Running(t, p.list)], list := p.list + 1,
                        results := [], waiter := Free)
    ensures Runnable(late, [Finish(0), TaskDone(0)])
    ensures Exec(late, [Finish(0), TaskDone(0)]) == p.(list := p.list + 1, results := [], waiter := Free)
  {
    var over := p.(list := p.list + 1, results := [], waiter := Free);
    assert over.workers == late.workers[0 := Finishing][0 := Idle];
    TwoSteps(late, Finish(0), TaskDone(0), [], over);
    assert [Finish(0), TaskDone(0)] + [] == [Finish(0), TaskDone(0)];
  }

  lemma {:induction false} OneStep(p: Pool, s: Step, rest: seq<Step>, q: Pool)
    requires Enabled(p, s) && Next(p, s) == q && Runnable(q, rest)
    ensures Runnable(p, [s] + rest) && Exec(p, [s] + rest) == Exec(q, rest)
  {
    assert ([s] + rest)[1..] == rest;
  }

  lemma {:induction false} TwoSteps(p: Pool, s: Step, t: Step, rest: seq<Step>, q: Pool)
    requires Enabled(p, s) && Enabled(Next(p, s), t) && Next(Next(p, s), t) == q && Runnable(q, rest)
    ensures Runnable(p, [s, t] + rest) && Exec(p, [s, t] + rest) == Exec(q, rest)
  {
    assert ([s, t] + rest)[1..] == [t] + rest && ([t] + rest)[1..] == rest;
  }
}
