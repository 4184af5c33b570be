/** The MySQL client: a queue of jobs, worker threads, a pool of connections and the completed
    callbacks, under any interleaving of workers and callers. What a thread does while it holds a
    mutex is one step, except that a thread about to sleep on the pool keeps the pool mutex
    between finding nothing and falling asleep. */
module MySqlPool {
  import opened Options

  type Tid = nat
  type Conn = nat

  /** Jobs are numbered in the order they are submitted. */
  datatype Job = Job(id: nat, callback: bool)

  /** What a connection is wanted for: escaping a string, or a worker's job. */
  datatype Task = Escape | Work(job: Job)

  datatype Thread =
    | Idle                                // a caller between calls, a worker at the top of its loop
    | Asleep | Roused                     // a worker waiting for a job
    | Wants(task: Task)                   // on the way into AcquireConnection
    | Blocking(task: Task)                // found nothing, still holds the pool mutex
    | Sleeping(task: Task) | Woken(task: Task)
    | Holds(task: Task, conn: Conn)
    | Finished(task: Task, ran: bool)
    | Exited

  /** notifies counts the jobs pushed whose notify_one is still to come. */
  datatype Pool = Pool(
    all: seq<Conn>, workers: set<Tid>, free: seq<Conn>, threads: map<Tid, Thread>,
    jobs: seq<Job>, notifies: nat, completed: seq<Job>, batch: seq<Job>, delivered: seq<Job>,
    forgotten: seq<Job>, submitted: seq<Job>,
    stop: bool, poolNotified: bool, stopping: set<Tid>)

  ghost predicate Initial(s: Pool) {
    && (forall i, j | 0 <= i < j < |s.all| :: s.all[i] != s.all[j])
    && s.free == s.all
    && s.workers <= s.threads.Keys && (forall t | t in s.threads :: s.threads[t] == Idle)
    && s.jobs == [] && s.notifies == 0 && s.completed == [] && s.batch == [] && s.delivered == []
    && s.forgotten == [] && s.submitted == []
    && !s.stop && !s.poolNotified && s.stopping == {}
  }

  datatype Step =
    | Submit(callback: bool)              // Execute, under the queue mutex
    | NotifyQueue(waked: Option<Tid>)     // its notify_one, after the mutex is released
    | Fetch(t: Tid)                       // a worker looks for a job
    | Leave(t: Tid)                       // a worker leaves at the top of its loop
    | StartEscape(t: Tid)
    | Check(t: Tid)                       // the wait condition of AcquireConnection
    | Block(t: Tid)
    | Release(t: Tid, waked: Option<Tid>)
    | Finish(t: Tid)
    | Spurious(t: Tid)
    | SwapBatch | Deliver                 // ProcessTick
    | Stop | NotifyAllQueue | NotifyAllPool | RequestStop(t: Tid)   // StopWorkers

  predicate Is(s: Pool, t: Tid, p: Thread -> bool) {
    t in s.threads && p(s.threads[t])
  }

  predicate PoolMutexFree(s: Pool) {
    forall t | t in s.threads :: !s.threads[t].Blocking?
  }

  /** notify_one wakes a waiter if there is one. */
  predicate Wakes(s: Pool, waked: Option<Tid>, waiting: Thread -> bool) {
    match waked
    case Some(t) => t in s.threads && waiting(s.threads[t])
    case None => forall t | t in s.threads :: !waiting(s.threads[t])
  }

  predicate Enabled(s: Pool, step: Step) {
    match step
    case Submit(_) => true
    case NotifyQueue(waked) => s.notifies > 0 && Wakes(s, waked, (x: Thread) => x.Asleep?)
    case Fetch(t) => t in s.workers && Is(s, t, (x: Thread) => x.Idle? || x.Roused?)
    case Leave(t) => t in s.workers && t in s.stopping && Is(s, t, (x: Thread) => x.Idle?)
    case StartEscape(t) => t !in s.workers && Is(s, t, (x: Thread) => x.Idle?)
    case Check(t) => PoolMutexFree(s) && Is(s, t, (x: Thread) => x.Wants? || x.Woken?)
    case Block(t) => Is(s, t, (x: Thread) => x.Blocking?)
    case Release(t, waked) =>
      PoolMutexFree(s) && Is(s, t, (x: Thread) => x.Holds?) && Wakes(s, waked, (x: Thread) => x.Sleeping?)
    case Finish(t) => Is(s, t, (x: Thread) => x.Finished?)
    case Spurious(t) => Is(s, t, (x: Thread) => x.Asleep? || x.Sleeping?)
    case SwapBatch => s.batch == []
    case Deliver => s.batch != []
    case Stop => true
    case NotifyAllQueue => s.stop
    case NotifyAllPool => s.stop
    case RequestStop(t) => s.poolNotified && t in s.workers && t in s.threads
  }

  function Waked(x: Thread): Thread {
    match x
    case Asleep => Roused
    case Sleeping(task) => Woken(task)
    case _ => x
  }

  function Wake(threads: map<Tid, Thread>, waked: Option<Tid>): (r: map<Tid, Thread>)
    ensures r.Keys == threads.Keys
  {
    if waked.Some? && waked.value in threads then threads[waked.value := Waked(threads[waked.value])] else threads
  }

  function WakeAll(threads: map<Tid, Thread>, waiting: Thread -> bool): map<Tid, Thread> {
    map t | t in threads :: if waiting(threads[t]) then Waked(threads[t]) else threads[t]
  }

  function AfterFetch(s: Pool, t: Tid): Pool {
    if s.jobs != [] then s.(jobs := s.jobs[1..], threads := s.threads[t := Wants(Work(s.jobs[0]))])
    else if s.stop || t in s.stopping then s.(threads := s.threads[t := Exited])
    else s.(threads := s.threads[t := Asleep])
  }

  function AfterCheck(s: Pool, t: Tid, task: Task): Pool {
    if s.stop || s.free != [] || s.all == [] then
      if s.stop || s.free == [] then s.(threads := s.threads[t := Finished(task, false)])
      else s.(free := s.free[1..], threads := s.threads[t := Holds(task, s.free[0])])
    else s.(threads := s.threads[t := Blocking(task)])
  }

  /** The result goes to the callback queue if there is a callback, and nowhere otherwise. */
  function AfterFinish(s: Pool, t: Tid, task: Task): Pool {
    var idle := s.(threads := s.threads[t := Idle]);
    match task
    case Escape => idle
    case Work(job) =>
      if job.callback then idle.(completed := s.completed + [job]) else idle.(forgotten := s.forgotten + [job])
  }

  function Apply(s: Pool, step: Step): Pool
    requires Enabled(s, step)
  {
    match step
    case Submit(callback) =>
      var job := Job(|s.submitted|, callback);
      s.(jobs := s.jobs + [job], submitted := s.submitted + [job], notifies := s.notifies + 1)
    case NotifyQueue(waked) => s.(notifies := s.notifies - 1, threads := Wake(s.threads, waked))
    case Fetch(t) => AfterFetch(s, t)
    case Leave(t) => s.(threads := s.threads[t := Exited])
    case StartEscape(t) => s.(threads := s.threads[t := Wants(Escape)])
    case Check(t) => AfterCheck(s, t, s.threads[t].task)
    case Block(t) => s.(threads := s.threads[t := Sleeping(s.threads[t].task)])
    case Release(t, waked) =>
      s.(free := s.free + [s.threads[t].conn],
         threads := Wake(s.threads, waked)[t := Finished(s.threads[t].task, true)])
    case Finish(t) => AfterFinish(s, t, s.threads[t].task)
    case Spurious(t) => s.(threads := s.threads[t := Waked(s.threads[t])])
    case SwapBatch => s.(batch := s.completed, completed := [])
    case Deliver => s.(batch := s.batch[1..], delivered := s.delivered + [s.batch[0]])
    case Stop => s.(stop := true)
    case NotifyAllQueue => s.(threads := WakeAll(s.threads, (x: Thread) => x.Asleep?))
    case NotifyAllPool => s.(threads := WakeAll(s.threads, (x: Thread) => x.Sleeping?), poolNotified := true)
    case RequestStop(t) =>
      s.(stopping := s.stopping + {t},
         threads := if s.threads[t].Asleep? then s.threads[t := Roused] else s.threads)
  }

  /** The state after a run; what is not possible does not happen. */
  function Run(s: Pool, steps: seq<Step>): Pool {
    if |steps| == 0 then s
    else
      var before := Run(s, steps[..|steps| - 1]);
      if Enabled(before, steps[|steps| - 1]) then Apply(before, steps[|steps| - 1]) else before
  }

  // ----- How a step moves threads -----

  /** The steps that neither take nor return anything and put nobody to sleep. */
  predicate Mild(step: Step) {
    !step.Check? && !step.Block? && !step.Release? && !step.Fetch? && !step.Finish?
  }

  /** Woken at most, or off on a new errand, or gone. */
  predicate Gentle(x: Thread, y: Thread) {
    y == x || y == Waked(x) || (x.Idle? && (y == Wants(Escape) || y.Exited?))
  }

  lemma MildStep(s: Pool, step: Step)
    requires Enabled(s, step) && Mild(step)
    ensures var r := Apply(s, step);
            && r.free == s.free && r.all == s.all && r.threads.Keys == s.threads.Keys
            && forall t | t in s.threads :: Gentle(s.threads[t], r.threads[t])
  {
    hide PoolMutexFree, Wakes, AfterFetch, AfterCheck, AfterFinish;
  }

  /** A step of one thread leaves the others alone. */
  predicate OneMoves(threads: map<Tid, Thread>, after: map<Tid, Thread>, t: Tid) {
    && t in threads && after.Keys == threads.Keys
    && forall u | u in threads && u != t :: after[u] == threads[u]
  }

  lemma FetchMoves(s: Pool, t: Tid)
    requires t in s.threads
    ensures OneMoves(s.threads, AfterFetch(s, t).threads, t)
    ensures var y := AfterFetch(s, t).threads[t]; y.Wants? || y.Exited? || y.Asleep?
  {
  }

  lemma CheckMoves(s: Pool, t: Tid, task: Task)
    requires t in s.threads
    ensures OneMoves(s.threads, AfterCheck(s, t, task).threads, t)
    ensures var y := AfterCheck(s, t, task).threads[t]; (y.Blocking? || y.Holds? || y.Finished?) && y.task == task
  {
  }

  lemma FinishMoves(s: Pool, t: Tid, task: Task)
    requires t in s.threads
    ensures OneMoves(s.threads, AfterFinish(s, t, task).threads, t) && AfterFinish(s, t, task).threads[t] == Idle
  {
  }

  lemma ReleaseMoves(s: Pool, t: Tid, waked: Option<Tid>)
    requires Enabled(s, Release(t, waked))
    ensures var r := Apply(s, Release(t, waked));
            && r.threads.Keys == s.threads.Keys && r.threads[t] == Finished(s.threads[t].task, true)
            && forall u | u in s.threads && u != t :: Gentle(s.threads[u], r.threads[u])
  {
  }

  // ----- Counting what threads hold -----

  predicate HoldsConn(x: Thread, c: Conn) {
    x.Holds? && x.conn == c
  }

  function JobOf(x: Thread): Option<Job> {
    match x
    case Wants(Work(j)) => Some(j)
    case Blocking(Work(j)) => Some(j)
    case Sleeping(Work(j)) => Some(j)
    case Woken(Work(j)) => Some(j)
    case Holds(Work(j), _) => Some(j)
    case Finished(Work(j), _) => Some(j)
    case _ => None
  }

  function Holders(threads: map<Tid, Thread>, c: Conn): set<Tid> {
    set t | t in threads && HoldsConn(threads[t], c)
  }

  function Carriers(threads: map<Tid, Thread>, j: Job): set<Tid> {
    set t | t in threads && JobOf(threads[t]) == Some(j)
  }

  function Bit(b: bool): nat {
    if b then 1 else 0
  }

  lemma HoldersUpdate(threads: map<Tid, Thread>, t: Tid, x: Thread, c: Conn)
    requires t in threads
    ensures |Holders(threads[t := x], c)| + Bit(HoldsConn(threads[t], c))
         == |Holders(threads, c)| + Bit(HoldsConn(x, c))
  {
    SetUpdate(Holders(threads, c), Holders(threads[t := x], c), t);
  }

  lemma CarriersUpdate(threads: map<Tid, Thread>, t: Tid, x: Thread, j: Job)
    requires t in threads
    ensures |Carriers(threads[t := x], j)| + Bit(JobOf(threads[t]) == Some(j))
         == |Carriers(threads, j)| + Bit(JobOf(x) == Some(j))
  {
    SetUpdate(Carriers(threads, j), Carriers(threads[t := x], j), t);
  }

  lemma WakeTakesNothing(threads: map<Tid, Thread>, waked: Option<Tid>, c: Conn)
    ensures Holders(Wake(threads, waked), c) == Holders(threads, c)
  {
  }

  // ----- Connections and jobs are conserved -----

  ghost predicate ConnsBalanced(s: Pool) {
    forall c: Conn :: ConnBalanced(s, c)
  }

  ghost predicate ConnBalanced(s: Pool, c: Conn) {
    multiset(s.free)[c] + |Holders(s.threads, c)| == multiset(s.all)[c]
  }

  ghost predicate JobsBalanced(s: Pool) {
    forall j: Job :: JobBalanced(s, j)
  }

  ghost predicate JobBalanced(s: Pool, j: Job) {
    multiset(s.jobs)[j] + |Carriers(s.threads, j)| + multiset(s.completed)[j] + multiset(s.batch)[j]
    + multiset(s.delivered)[j] + multiset(s.forgotten)[j]
    == multiset(s.submitted)[j]
  }

  lemma HeadOff<T>(q: seq<T>, x: T)
    requires q != []
    ensures multiset(q[1..])[x] + Bit(q[0] == x) == multiset(q)[x]
  {
    assert q == [q[0]] + q[1..];
  }

  lemma SameHolders(threads: map<Tid, Thread>, after: map<Tid, Thread>, c: Conn)
    requires after.Keys == threads.Keys && forall t | t in threads :: HoldsConn(after[t], c) == HoldsConn(threads[t], c)
    ensures Holders(after, c) == Holders(threads, c)
  {
  }

  /** Only taking and returning a connection changes who holds one. */
  lemma OthersHoldSame(s: Pool, step: Step, c: Conn)
    requires Enabled(s, step) && !step.Check? && !step.Release?
    ensures Holders(Apply(s, step).threads, c) == Holders(s.threads, c) && Apply(s, step).free == s.free
  {
    hide PoolMutexFree, Wakes, AfterFetch, AfterFinish, AfterCheck, Wake, WakeAll;
    if Mild(step) {
      MildStep(s, step);
      hide Enabled, Apply;
      SameHolders(s.threads, Apply(s, step).threads, c);
    } else if step.Fetch? {
      FetchMoves(s, step.t);
      SameHolders(s.threads, AfterFetch(s, step.t).threads, c);
      FetchKeepsFree(s, step.t);
    } else if step.Finish? {
      FinishMoves(s, step.t, s.threads[step.t].task);
      SameHolders(s.threads, Apply(s, step).threads, c);
      FinishKeepsFree(s, step.t, s.threads[step.t].task);
    } else {
      SameHolders(s.threads, Apply(s, step).threads, c);
    }
  }

  lemma FetchKeepsFree(s: Pool, t: Tid)
    ensures AfterFetch(s, t).free == s.free && AfterFetch(s, t).all == s.all
  {
  }

  lemma FinishKeepsFree(s: Pool, t: Tid, task: Task)
    ensures AfterFinish(s, t, task).free == s.free && AfterFinish(s, t, task).all == s.all
  {
  }

  lemma CheckConn(s: Pool, t: Tid, c: Conn)
    requires Enabled(s, Check(t)) && ConnBalanced(s, c)
    ensures ConnBalanced(Apply(s, Check(t)), c)
  {
    hide Holders, PoolMutexFree;
    HoldersUpdate(s.threads, t, Apply(s, Check(t)).threads[t], c);
    if s.free != [] { HeadOff(s.free, c); }
  }

  lemma ReleaseConn(s: Pool, t: Tid, waked: Option<Tid>, c: Conn)
    requires Enabled(s, Release(t, waked)) && ConnBalanced(s, c)
    ensures ConnBalanced(Apply(s, Release(t, waked)), c)
  {
    hide Holders, PoolMutexFree;
    var woke := Wake(s.threads, waked);
    WakeTakesNothing(s.threads, waked, c);
    assert woke[t] == s.threads[t];
    hide Wake;
    HoldersUpdate(woke, t, Finished(s.threads[t].task, true), c);
  }

  lemma ConnsKept(s: Pool, step: Step)
    requires Enabled(s, step) && ConnsBalanced(s)
    ensures ConnsBalanced(Apply(s, step))
  {
    forall c: Conn
      ensures ConnBalanced(Apply(s, step), c)
    {
      assert ConnBalanced(s, c);
      if step.Check? {
        CheckConn(s, step.t, c);
      } else if step.Release? {
        ReleaseConn(s, step.t, step.waked, c);
      } else {
        OthersHoldSame(s, step, c);
        assert Apply(s, step).all == s.all;
      }
      hide Enabled, Holders;
    }
  }

  lemma GentleKeepsJob(x: Thread, y: Thread)
    requires Gentle(x, y)
    ensures JobOf(y) == JobOf(x)
  {
  }

  lemma SameTaskSameJob(x: Thread, y: Thread)
    requires x.Wants? || x.Woken? || x.Blocking? || x.Holds?
    requires (y.Blocking? || y.Sleeping? || y.Holds? || y.Finished?) && y.task == x.task
    ensures JobOf(y) == JobOf(x)
  {
  }

  /** Only a worker taking a job or handing in its result changes who carries one. */
  lemma CarriersStay(s: Pool, step: Step)
    requires Enabled(s, step) && !step.Fetch? && !step.Finish?
    ensures var r := Apply(s, step);
            r.threads.Keys == s.threads.Keys && forall t | t in s.threads :: JobOf(r.threads[t]) == JobOf(s.threads[t])
  {
    hide PoolMutexFree, Wakes, AfterCheck, JobOf, Gentle, Wake, WakeAll, AfterFetch, AfterFinish;
    var r := Apply(s, step);
    if Mild(step) {
      MildStep(s, step);
      forall t | t in s.threads
        ensures JobOf(r.threads[t]) == JobOf(s.threads[t])
      {
        GentleKeepsJob(s.threads[t], r.threads[t]);
      }
    } else {
      if step.Check? {
        CheckMoves(s, step.t, s.threads[step.t].task);
      } else if step.Release? {
        ReleaseMoves(s, step.t, step.waked);
      }
      SameTaskSameJob(s.threads[step.t], r.threads[step.t]);
      forall t | t in s.threads && t != step.t
        ensures JobOf(r.threads[t]) == JobOf(s.threads[t])
      {
        if step.Release? { GentleKeepsJob(s.threads[t], r.threads[t]); }
      }
    }
  }

  lemma SameCarriers(threads: map<Tid, Thread>, after: map<Tid, Thread>, j: Job)
    requires after.Keys == threads.Keys && forall t | t in threads :: JobOf(after[t]) == JobOf(threads[t])
    ensures Carriers(after, j) == Carriers(threads, j)
  {
  }

  lemma FetchJob(s: Pool, t: Tid, j: Job)
    requires t in s.threads && JobOf(s.threads[t]) == None && JobBalanced(s, j)
    ensures JobBalanced(AfterFetch(s, t), j)
  {
    hide Carriers, JobOf;
    if s.jobs != [] {
      HeadOff(s.jobs, j);
      CarriersUpdate(s.threads, t, Wants(Work(s.jobs[0])), j);
      WantedJob(s.jobs[0]);
    } else {
      CarriersUpdate(s.threads, t, Exited, j);
      CarriersUpdate(s.threads, t, Asleep, j);
      WantedJob(j);
    }
  }

  lemma WantedJob(j: Job)
    ensures JobOf(Wants(Work(j))) == Some(j) && JobOf(Exited) == None && JobOf(Asleep) == None && JobOf(Idle) == None
  {
  }

  lemma OneMore<T>(q: seq<T>, x: T, y: T)
    ensures multiset(q + [x])[y] == multiset(q)[y] + Bit(x == y)
  {
  }

  lemma FinishJob(s: Pool, t: Tid, task: Task, j: Job)
    requires t in s.threads && JobBalanced(s, j)
    requires JobOf(s.threads[t]) == if task.Work? then Some(task.job) else None
    ensures JobBalanced(AfterFinish(s, t, task), j)
  {
    hide Carriers, JobOf, AfterFinish;
    CarriersUpdate(s.threads, t, Idle, j);
    WantedJob(j);
    FinishPlaces(s, t, task, j);
  }

  lemma FinishPlaces(s: Pool, t: Tid, task: Task, j: Job)
    ensures var r := AfterFinish(s, t, task);
            && r == s.(threads := s.threads[t := Idle], completed := r.completed, forgotten := r.forgotten)
            && multiset(r.completed)[j] + multiset(r.forgotten)[j]
               == multiset(s.completed)[j] + multiset(s.forgotten)[j] + Bit(task == Work(j))
  {
    match task
    case Escape =>
    case Work(job) => if job.callback { OneMore(s.completed, job, j); } else { OneMore(s.forgotten, job, j); }
  }

  lemma QueueJob(s: Pool, step: Step, j: Job)
    requires Enabled(s, step) && JobBalanced(s, j) && !step.Fetch? && !step.Finish?
    ensures JobBalanced(Apply(s, step), j)
  {
    CarriersStay(s, step);
    SameCarriers(s.threads, Apply(s, step).threads, j);
    QueuesMove(s, step);
    hide Carriers, JobOf, Enabled, Apply;
    if step.Submit? {
      assert multiset(s.jobs + [Job(|s.submitted|, step.callback)])[j]
          == multiset(s.jobs)[j] + Bit(Job(|s.submitted|, step.callback) == j);
    } else if step.Deliver? {
      HeadOff(s.batch, j);
    }
  }

  predicate Swapped(s: Pool, r: Pool) {
    s.batch == [] && r.batch == s.completed && r.completed == [] && r.delivered == s.delivered
  }

  predicate DeliveredOne(s: Pool, r: Pool) {
    && s.batch != [] && r.batch == s.batch[1..]
    && r.completed == s.completed && r.delivered == s.delivered + [s.batch[0]]
  }

  predicate SameCallbacks(s: Pool, r: Pool) {
    r.batch == s.batch && r.completed == s.completed && r.delivered == s.delivered
  }

  /** What the steps that take and hand in no job do to the queues. */
  lemma QueuesMove(s: Pool, step: Step)
    requires Enabled(s, step) && !step.Fetch? && !step.Finish?
    ensures var r := Apply(s, step);
            && r.forgotten == s.forgotten
            && (if step.Submit? then
                  var job := Job(|s.submitted|, step.callback);
                  r.jobs == s.jobs + [job] && r.submitted == s.submitted + [job]
                else r.jobs == s.jobs && r.submitted == s.submitted)
            && (if step.SwapBatch? then Swapped(s, r)
                else if step.Deliver? then DeliveredOne(s, r)
                else SameCallbacks(s, r))
  {
    hide PoolMutexFree, Wakes, Is, Wake, WakeAll;
  }

  lemma JobsKept(s: Pool, step: Step)
    requires Enabled(s, step) && JobsBalanced(s)
    ensures JobsBalanced(Apply(s, step))
  {
    forall j: Job
      ensures JobBalanced(Apply(s, step), j)
    {
      hide JobBalanced, AfterFetch, AfterFinish, AfterCheck;
      assert JobBalanced(s, j);
      if step.Fetch? {
        FetchJob(s, step.t, j);
        assert Apply(s, step) == AfterFetch(s, step.t);
      } else if step.Finish? {
        FinishJob(s, step.t, s.threads[step.t].task, j);
        assert Apply(s, step) == AfterFinish(s, step.t, s.threads[step.t].task);
      } else {
        QueueJob(s, step, j);
      }
    }
  }

  /** Jobs carry their number; callbacks are kept apart from the rest. */
  ghost predicate Sorted(s: Pool) {
    && (forall k | 0 <= k < |s.submitted| :: s.submitted[k].id == k)
    && (forall j | j in s.completed || j in s.batch || j in s.delivered :: j.callback)
    && (forall j | j in s.forgotten :: !j.callback)
  }

  lemma SortedKept(s: Pool, step: Step)
    requires Enabled(s, step) && Sorted(s)
    ensures Sorted(Apply(s, step))
  {
    if step.Fetch? {
      hide JobOf;
    } else if step.Finish? {
      hide JobOf;
    } else {
      QueuesMove(s, step);
      hide Apply, Enabled;
    }
  }

  // ----- No lost wake-up -----

  function Woke(threads: map<Tid, Thread>): set<Tid> {
    set t | t in threads && threads[t].Woken?
  }

  function RousedOnes(threads: map<Tid, Thread>): set<Tid> {
    set t | t in threads && threads[t].Roused?
  }

  predicate AnySleeping(s: Pool) {
    exists t :: t in s.threads && s.threads[t].Sleeping?
  }

  predicate AnyAsleep(s: Pool) {
    exists t :: t in s.threads && s.threads[t].Asleep?
  }

  /** While nobody stops the client, threads that were woken cover the free connections, or nobody
      sleeps for one. */
  predicate FreeAreSpokenFor(s: Pool) {
    !s.stop && AnySleeping(s) ==> |s.free| <= |Woke(s.threads)|
  }

  /** Queued jobs are covered by woken workers and by wake-ups still to come, or no worker sleeps. */
  predicate JobsAreSpokenFor(s: Pool) {
    AnyAsleep(s) ==> |s.jobs| <= s.notifies + |RousedOnes(s.threads)|
  }

  /** A thread between finding nothing and falling asleep has the pool to itself. */
  predicate BlockingSeesEmpty(s: Pool) {
    && (forall t | t in s.threads && s.threads[t].Blocking? :: s.free == [] && s.all != [])
    && (forall t | t in s.threads && s.threads[t].Sleeping? :: s.all != [])
    && (forall t, u | t in s.threads && u in s.threads && s.threads[t].Blocking? && s.threads[u].Blocking? :: t == u)
  }

  /** Once all were woken to stop, at most the one that was just falling asleep may still sleep,
      and then nothing is free. */
  predicate OneLateSleeper(s: Pool) {
    s.poolNotified ==>
      && s.stop
      && (forall t, u | t in s.threads && u in s.threads && MissedIt(s.threads[t]) && MissedIt(s.threads[u]) :: t == u)
      && (AnySleeping(s) ==> s.free == [])
  }

  predicate MissedIt(x: Thread) {
    x.Blocking? || x.Sleeping?
  }

  lemma WokeUpdate(threads: map<Tid, Thread>, t: Tid, x: Thread)
    requires t in threads
    ensures |Woke(threads[t := x])| + Bit(threads[t].Woken?) == |Woke(threads)| + Bit(x.Woken?)
    ensures |RousedOnes(threads[t := x])| + Bit(threads[t].Roused?) == |RousedOnes(threads)| + Bit(x.Roused?)
  {
    SetUpdate(Woke(threads), Woke(threads[t := x]), t);
    SetUpdate(RousedOnes(threads), RousedOnes(threads[t := x]), t);
  }

  lemma SetUpdate<T>(a: set<T>, b: set<T>, t: T)
    requires a - {t} == b - {t}
    ensures |b| + Bit(t in a) == |a| + Bit(t in b)
  {
    var others := a - {t};
    assert a == if t in a then others + {t} else others;
    assert b == if t in b then others + {t} else others;
  }

  predicate NoNewSleeper(x: Thread, y: Thread) {
    (y.Blocking? ==> x.Blocking?) && (y.Sleeping? ==> x.Sleeping?)
  }

  /** Only looking for a connection and falling asleep make new blocked threads. */
  lemma NoNewSleepers(s: Pool, step: Step)
    requires Enabled(s, step) && !step.Check? && !step.Block? && !step.Release?
    ensures var r := Apply(s, step);
            && r.free == s.free && r.all == s.all && r.threads.Keys == s.threads.Keys
            && forall t | t in s.threads :: NoNewSleeper(s.threads[t], r.threads[t])
  {
    hide PoolMutexFree, Wakes, AfterFetch, AfterFinish, AfterCheck, Wake, WakeAll;
    if Mild(step) {
      MildStep(s, step);
      hide Enabled, Apply;
    } else if step.Fetch? {
      FetchMoves(s, step.t);
      FetchKeepsFree(s, step.t);
    } else {
      FinishMoves(s, step.t, s.threads[step.t].task);
      FinishKeepsFree(s, step.t, s.threads[step.t].task);
    }
  }

  lemma FlagsOnlyRise(s: Pool, step: Step)
    requires Enabled(s, step)
    ensures s.stop ==> Apply(s, step).stop
    ensures Apply(s, step).poolNotified ==> s.poolNotified || step.NotifyAllPool?
  {
    hide PoolMutexFree, Wakes, Is, Wake, WakeAll;
  }

  lemma CheckBlocking(s: Pool, t: Tid, task: Task)
    requires PoolMutexFree(s) && t in s.threads && BlockingSeesEmpty(s)
    ensures BlockingSeesEmpty(AfterCheck(s, t, task))
  {
  }

  lemma BlockingKept(s: Pool, step: Step)
    requires Enabled(s, step) && BlockingSeesEmpty(s)
    ensures BlockingSeesEmpty(Apply(s, step))
  {
    hide AfterCheck, Wakes, AfterFetch, AfterFinish, WakeAll;
    if step.Check? {
      CheckBlocking(s, step.t, s.threads[step.t].task);
    } else if step.Block? {
      assert s.threads[step.t].Blocking?;
    } else if step.Release? {
      ReleaseBlocking(s, step.t, step.waked);
    } else {
      NoNewSleepers(s, step);
      hide Apply, Enabled;
    }
  }

  lemma ReleaseBlocking(s: Pool, t: Tid, waked: Option<Tid>)
    requires Enabled(s, Release(t, waked)) && BlockingSeesEmpty(s)
    ensures BlockingSeesEmpty(Apply(s, Release(t, waked)))
  {
  }

  lemma LateSleeperKept(s: Pool, step: Step)
    requires Enabled(s, step) && BlockingSeesEmpty(s) && OneLateSleeper(s)
    ensures OneLateSleeper(Apply(s, step))
  {
    hide Wakes, AfterFetch, AfterFinish;
    if step.Check? {
      assert PoolMutexFree(s);
    } else if step.NotifyAllPool? {
      assert !AnySleeping(Apply(s, step));
    } else if step.Release? {
      LateRelease(s, step.t, step.waked);
    } else if !step.Block? {
      FlagsOnlyRise(s, step);
      NoNewSleepers(s, step);
      hide Apply, Enabled;
    }
  }

  lemma LateRelease(s: Pool, t: Tid, waked: Option<Tid>)
    requires Enabled(s, Release(t, waked)) && OneLateSleeper(s)
    ensures OneLateSleeper(Apply(s, Release(t, waked)))
  {
  }

  lemma SubsetSize<T>(a: set<T>, b: set<T>)
    requires a <= b
    ensures |a| <= |b|
  {
    if a != {} {
      var x :| x in a;
      SubsetSize(a - {x}, b - {x});
    }
  }

  predicate StaysReady(x: Thread, y: Thread) {
    (x.Woken? ==> y.Woken?) && (x.Roused? ==> y.Roused?) && (y.Asleep? ==> x.Asleep?)
  }

  /** Only looking again ends a thread's wakefulness. */
  lemma WokenStay(s: Pool, step: Step)
    requires Enabled(s, step) && !step.Check? && !step.Fetch?
    ensures var r := Apply(s, step);
            r.threads.Keys == s.threads.Keys && forall t | t in s.threads :: StaysReady(s.threads[t], r.threads[t])
  {
    hide PoolMutexFree, Wakes, AfterFetch, AfterFinish, AfterCheck, Wake, WakeAll;
    if Mild(step) {
      MildStep(s, step);
      hide Enabled, Apply;
    } else if step.Release? {
      ReleaseMoves(s, step.t, step.waked);
    } else if step.Finish? {
      FinishMoves(s, step.t, s.threads[step.t].task);
    }
  }

  lemma ReadyCounts(threads: map<Tid, Thread>, after: map<Tid, Thread>)
    requires threads.Keys == after.Keys && forall t | t in threads :: StaysReady(threads[t], after[t])
    ensures |Woke(threads)| <= |Woke(after)| && |RousedOnes(threads)| <= |RousedOnes(after)|
  {
    SubsetSize(Woke(threads), Woke(after));
    SubsetSize(RousedOnes(threads), RousedOnes(after));
  }

  lemma CheckSpokenFor(s: Pool, t: Tid, task: Task)
    requires t in s.threads && BlockingSeesEmpty(s) && FreeAreSpokenFor(s)
    ensures FreeAreSpokenFor(AfterCheck(s, t, task))
  {
    var r := AfterCheck(s, t, task);
    WokeUpdate(s.threads, t, r.threads[t]);
    hide Woke, RousedOnes;
    if AnySleeping(r) {
      var u :| u in r.threads && r.threads[u].Sleeping?;
      assert s.threads[u].Sleeping?;
    }
  }

  lemma ReleaseSpokenFor(s: Pool, t: Tid, waked: Option<Tid>)
    requires Enabled(s, Release(t, waked)) && FreeAreSpokenFor(s)
    ensures FreeAreSpokenFor(Apply(s, Release(t, waked)))
  {
    var r := Apply(s, Release(t, waked));
    hide PoolMutexFree, Woke, RousedOnes;
    if AnySleeping(r) {
      var u :| u in r.threads && r.threads[u].Sleeping?;
      assert s.threads[u].Sleeping?;
      assert waked.Some?;
      var woke := Wake(s.threads, waked);
      WokeUpdate(s.threads, waked.value, woke[waked.value]);
      WokeUpdate(woke, t, r.threads[t]);
    }
  }

  lemma FreeKept(s: Pool, step: Step)
    requires Enabled(s, step) && BlockingSeesEmpty(s) && FreeAreSpokenFor(s)
    ensures FreeAreSpokenFor(Apply(s, step))
  {
    hide AfterCheck, Woke, RousedOnes, Wakes, AfterFetch, AfterFinish, WakeAll, Wake, PoolMutexFree;
    if step.Check? {
      CheckSpokenFor(s, step.t, s.threads[step.t].task);
    } else if step.Release? {
      ReleaseSpokenFor(s, step.t, step.waked);
    } else if !step.Block? && !step.Fetch? {
      FlagsOnlyRise(s, step);
      NoNewSleepers(s, step);
      WokenStay(s, step);
      ReadyCounts(s.threads, Apply(s, step).threads);
      hide Apply, Enabled;
    } else if step.Fetch? {
      FetchKeepsWoken(s, step.t);
    }
  }

  lemma FetchKeepsWoken(s: Pool, t: Tid)
    requires Enabled(s, Fetch(t)) && FreeAreSpokenFor(s)
    ensures FreeAreSpokenFor(AfterFetch(s, t))
  {
    var r := AfterFetch(s, t);
    WokeUpdate(s.threads, t, r.threads[t]);
    hide Woke, RousedOnes;
    if AnySleeping(r) {
      var u :| u in r.threads && r.threads[u].Sleeping?;
      assert s.threads[u].Sleeping?;
    }
  }

  lemma FetchSpokenFor(s: Pool, t: Tid)
    requires t in s.threads && JobsAreSpokenFor(s)
    ensures JobsAreSpokenFor(AfterFetch(s, t))
  {
    var r := AfterFetch(s, t);
    WokeUpdate(s.threads, t, r.threads[t]);
    hide Woke, RousedOnes;
    if s.jobs != [] && AnyAsleep(r) {
      var u :| u in r.threads && r.threads[u].Asleep?;
      assert s.threads[u].Asleep?;
    }
  }

  lemma NotifySpokenFor(s: Pool, waked: Option<Tid>)
    requires Enabled(s, NotifyQueue(waked)) && JobsAreSpokenFor(s)
    ensures JobsAreSpokenFor(Apply(s, NotifyQueue(waked)))
  {
    var r := Apply(s, NotifyQueue(waked));
    hide Woke, RousedOnes;
    if AnyAsleep(r) {
      var u :| u in r.threads && r.threads[u].Asleep?;
      assert s.threads[u].Asleep?;
      assert waked.Some?;
      WokeUpdate(s.threads, waked.value, r.threads[waked.value]);
    }
  }

  lemma CheckKeepsRoused(s: Pool, t: Tid, task: Task)
    requires t in s.threads && !s.threads[t].Roused? && JobsAreSpokenFor(s)
    ensures JobsAreSpokenFor(AfterCheck(s, t, task))
  {
    var r := AfterCheck(s, t, task);
    WokeUpdate(s.threads, t, r.threads[t]);
    hide Woke, RousedOnes;
    if AnyAsleep(r) {
      var u :| u in r.threads && r.threads[u].Asleep?;
      assert s.threads[u].Asleep?;
    }
  }

  lemma JobsCovered(s: Pool, step: Step)
    requires Enabled(s, step) && JobsAreSpokenFor(s)
    ensures JobsAreSpokenFor(Apply(s, step))
  {
    hide AfterCheck, Woke, RousedOnes, Wakes, AfterFetch, WakeAll, Wake, PoolMutexFree;
    if step.Fetch? {
      FetchSpokenFor(s, step.t);
    } else if step.NotifyQueue? {
      NotifySpokenFor(s, step.waked);
    } else if step.Check? {
      CheckKeepsRoused(s, step.t, s.threads[step.t].task);
    } else {
      WokenStay(s, step);
      ReadyCounts(s.threads, Apply(s, step).threads);
    }
  }

  // ----- The order of callbacks with one worker -----

  function Callbacks(js: seq<Job>): seq<Job> {
    if |js| == 0 then []
    else if js[|js| - 1].callback then Callbacks(js[..|js| - 1]) + [js[|js| - 1]]
    else Callbacks(js[..|js| - 1])
  }

  lemma {:induction false} CallbacksConcat(a: seq<Job>, b: seq<Job>)
    ensures Callbacks(a + b) == Callbacks(a) + Callbacks(b)
    decreases |b|
  {
    if |b| == 0 {
      assert a + b == a;
    } else {
      CallbacksConcat(a, b[..|b| - 1]);
      assert (a + b)[..|a + b| - 1] == a + b[..|b| - 1];
    }
  }

  lemma {:induction false} AllCallbacks(js: seq<Job>)
    requires forall j | j in js :: j.callback
    ensures Callbacks(js) == js
  {
    if |js| > 0 {
      assert forall j | j in js[..|js| - 1] :: j in js;
      AllCallbacks(js[..|js| - 1]);
    }
  }

  function Carried(x: Thread): seq<Job> {
    match JobOf(x)
    case Some(j) => [j]
    case None => []
  }

  /** All jobs, those furthest along first. */
  function Line(s: Pool, w: Tid): seq<Job>
    requires w in s.threads
  {
    s.delivered + s.batch + s.completed + Carried(s.threads[w]) + s.jobs
  }

  ghost predicate InOrder(s: Pool, w: Tid) {
    && s.workers == {w} && w in s.threads
    && (forall t | t in s.threads && t != w :: JobOf(s.threads[t]) == None)
    && Callbacks(Line(s, w)) == Callbacks(s.submitted)
  }

  lemma FetchInOrder(s: Pool, t: Tid)
    requires InOrder(s, t) && JobOf(s.threads[t]) == None
    ensures InOrder(AfterFetch(s, t), t)
  {
    var r := AfterFetch(s, t);
    if s.jobs != [] {
      assert s.jobs == [s.jobs[0]] + r.jobs;
      assert Line(r, t) == Line(s, t);
    } else {
      assert Line(r, t) == Line(s, t);
    }
  }

  lemma FinishInOrder(s: Pool, t: Tid, task: Task, w: Tid)
    requires InOrder(s, w) && t in s.threads
    requires JobOf(s.threads[t]) == if task.Work? then Some(task.job) else None
    ensures InOrder(AfterFinish(s, t, task), w)
  {
    hide JobOf, Callbacks;
    WantedJob(Job(0, true));
    var r := AfterFinish(s, t, task);
    if t == w && task.Work? && !task.job.callback {
      DroppedFromLine(s.delivered + s.batch + s.completed, task.job, s.jobs);
      assert Line(s, w) == s.delivered + s.batch + s.completed + [task.job] + s.jobs;
      assert Line(r, w) == s.delivered + s.batch + s.completed + s.jobs;
    } else {
      assert Line(r, w) == Line(s, w);
    }
  }

  lemma DroppedFromLine(ahead: seq<Job>, job: Job, behind: seq<Job>)
    requires !job.callback
    ensures Callbacks(ahead + [job] + behind) == Callbacks(ahead + behind)
  {
    CallbacksConcat(ahead + [job], behind);
    CallbacksConcat(ahead, behind);
    assert (ahead + [job])[..|ahead|] == ahead;
  }

  lemma SubmitInOrder(s: Pool, r: Pool, w: Tid, job: Job)
    requires w in s.threads && w in r.threads && Callbacks(Line(s, w)) == Callbacks(s.submitted)
    requires Carried(r.threads[w]) == Carried(s.threads[w])
    requires r.jobs == s.jobs + [job] && r.submitted == s.submitted + [job]
    requires r.completed == s.completed && r.batch == s.batch && r.delivered == s.delivered
    ensures Callbacks(Line(r, w)) == Callbacks(r.submitted)
  {
    hide Carried, Callbacks;
    assert Line(r, w) == Line(s, w) + [job];
    CallbacksConcat(Line(s, w), [job]);
    CallbacksConcat(s.submitted, [job]);
  }

  lemma TickInOrder(s: Pool, r: Pool, w: Tid)
    requires w in s.threads && w in r.threads && Carried(r.threads[w]) == Carried(s.threads[w]) && r.jobs == s.jobs
    requires Swapped(s, r) || DeliveredOne(s, r) || SameCallbacks(s, r)
    ensures Line(r, w) == Line(s, w)
  {
  }

  lemma QueuesInOrder(s: Pool, step: Step, w: Tid)
    requires Enabled(s, step) && InOrder(s, w) && !step.Fetch? && !step.Finish?
    ensures InOrder(Apply(s, step), w)
  {
    hide JobOf, Callbacks, Enabled, Apply, Line;
    CarriersStay(s, step);
    QueuesMove(s, step);
    SameConnections(s, step);
    var r := Apply(s, step);
    assert Carried(r.threads[w]) == Carried(s.threads[w]);
    if step.Submit? {
      SubmitInOrder(s, r, w, Job(|s.submitted|, step.callback));
    } else {
      TickInOrder(s, r, w);
    }
  }

  lemma OrderKept(s: Pool, step: Step, w: Tid)
    requires Enabled(s, step) && InOrder(s, w)
    ensures InOrder(Apply(s, step), w)
  {
    hide AfterFetch, AfterFinish, InOrder;
    if step.Fetch? {
      assert step.t == w by { OnlyWorker(s, w, step.t); }
      FetchInOrder(s, w);
    } else if step.Finish? {
      FinishInOrder(s, step.t, s.threads[step.t].task, w);
    } else {
      QueuesInOrder(s, step, w);
    }
  }

  lemma OnlyWorker(s: Pool, w: Tid, t: Tid)
    requires InOrder(s, w) && t in s.workers
    ensures t == w
  {
  }

  // ----- What every run keeps -----

  ghost predicate Invariant(s: Pool) {
    && ConnsBalanced(s) && JobsBalanced(s) && Sorted(s)
    && FreeAreSpokenFor(s) && JobsAreSpokenFor(s) && BlockingSeesEmpty(s) && OneLateSleeper(s)
  }

  lemma InitialInvariant(s: Pool)
    requires Initial(s)
    ensures Invariant(s)
  {
  }

  lemma InvariantKept(s: Pool, step: Step)
    requires Invariant(s) && Enabled(s, step)
    ensures Invariant(Apply(s, step))
  {
    hide Apply, Enabled, ConnsBalanced, JobsBalanced, Sorted, FreeAreSpokenFor, JobsAreSpokenFor,
         BlockingSeesEmpty, OneLateSleeper;
    ConnsKept(s, step);
    JobsKept(s, step);
    SortedKept(s, step);
    FreeKept(s, step);
    JobsCovered(s, step);
    BlockingKept(s, step);
    LateSleeperKept(s, step);
  }

  lemma {:induction false} RunKeepsInvariant(s: Pool, steps: seq<Step>)
    requires Initial(s)
    ensures Invariant(Run(s, steps)) && Run(s, steps).all == s.all
  {
    if |steps| == 0 {
      InitialInvariant(s);
    } else {
      var before, step := Run(s, steps[..|steps| - 1]), steps[|steps| - 1];
      RunKeepsInvariant(s, steps[..|steps| - 1]);
      if Enabled(before, step) {
        InvariantKept(before, step);
        SameConnections(before, step);
      }
      hide Invariant, Apply, Enabled;
    }
  }

  lemma SameConnections(s: Pool, step: Step)
    requires Enabled(s, step)
    ensures Apply(s, step).all == s.all && Apply(s, step).workers == s.workers
  {
    hide PoolMutexFree, Wakes, Is, Wake, WakeAll;
  }

  // ----- What follows for every run -----

  /** Free and held connections together are all connections, each exactly once. */
  lemma ConnectionsAreConserved(s: Pool, steps: seq<Step>, c: Conn)
    requires Initial(s)
    ensures var r := Run(s, steps);
            multiset(r.free)[c] + |Holders(r.threads, c)| == if c in s.all then 1 else 0
  {
    RunKeepsInvariant(s, steps);
    hide Run, Holders;
    assert ConnBalanced(Run(s, steps), c);
    Once(s.all, c);
  }

  lemma {:induction false} Once<T>(q: seq<T>, x: T)
    requires forall i, j | 0 <= i < j < |q| :: q[i] != q[j]
    ensures multiset(q)[x] == if x in q then 1 else 0
  {
    if |q| > 0 {
      var front := q[..|q| - 1];
      Once(front, x);
      assert q == front + [q[|q| - 1]];
    }
  }

  /** Two threads never hold the same connection. */
  lemma ConnectionsAreExclusive(s: Pool, steps: seq<Step>, t: Tid, u: Tid)
    requires Initial(s)
    requires var r := Run(s, steps);
             && t in r.threads && u in r.threads && r.threads[t].Holds? && r.threads[u].Holds?
             && r.threads[t].conn == r.threads[u].conn
    ensures t == u
  {
    var r := Run(s, steps);
    var c := r.threads[t].conn;
    ConnectionsAreConserved(s, steps, c);
    hide Run;
    if t != u {
      SubsetSize({t, u}, Holders(r.threads, c));
    }
  }

  /** Every submitted job is in exactly one place; one with a callback is never dropped, and one
      without is never called back. */
  lemma JobsAreInOnePlace(s: Pool, steps: seq<Step>, k: nat)
    requires Initial(s) && k < |Run(s, steps).submitted|
    ensures var r := Run(s, steps);
            var j := r.submitted[k];
            && multiset(r.jobs)[j] + |Carriers(r.threads, j)| + multiset(r.completed)[j] + multiset(r.batch)[j]
               + multiset(r.delivered)[j] + multiset(r.forgotten)[j] == 1
            && (j.callback ==> j !in r.forgotten)
            && (!j.callback ==> j !in r.completed && j !in r.batch && j !in r.delivered)
  {
    RunKeepsInvariant(s, steps);
    hide Run, Carriers;
    var r := Run(s, steps);
    assert JobBalanced(r, r.submitted[k]);
    assert forall i, j | 0 <= i < j < |r.submitted| :: r.submitted[i].id == i && r.submitted[j].id == j;
    Once(r.submitted, r.submitted[k]);
  }

  /** A thread blocked on the pool, with no thread woken and no stop announcement still to come,
      means that nothing is free and that another thread holds a connection. */
  lemma BlockedMeansHeld(s: Pool, steps: seq<Step>, t: Tid)
    requires Initial(s)
    requires var r := Run(s, steps);
             && t in r.threads && (r.threads[t].Sleeping? || r.threads[t].Blocking?)
             && (r.threads[t].Sleeping? ==> Woke(r.threads) == {} && (r.stop ==> r.poolNotified))
    ensures var r := Run(s, steps);
            r.free == [] && exists u :: u in r.threads && u != t && r.threads[u].Holds?
  {
    RunKeepsInvariant(s, steps);
    var r := Run(s, steps);
    hide Run;
    assert r.free == [] && r.all != [];
    var c := r.all[0];
    assert ConnBalanced(r, c);
    assert c in r.all;
    Once(s.all, c);
    assert |Holders(r.threads, c)| == 1;
    var u :| u in Holders(r.threads, c);
  }

  /** A queued job never waits for a sleeping worker unless a wake-up is on its way. */
  lemma QueuedJobsAreFetched(s: Pool, steps: seq<Step>)
    requires Initial(s)
    ensures var r := Run(s, steps);
            r.jobs != [] && AnyAsleep(r) ==> r.notifies > 0 || exists t :: t in r.threads && r.threads[t].Roused?
  {
    RunKeepsInvariant(s, steps);
    var r := Run(s, steps);
    hide Run, ConnsBalanced, JobsBalanced;
    if r.jobs != [] && AnyAsleep(r) && r.notifies == 0 {
      assert RousedOnes(r.threads) != {};
      var t :| t in RousedOnes(r.threads);
    }
  }

  /** Stopping does not take the pool mutex, so one thread may fall asleep after all were woken;
      no more than one does, and the next connection returned wakes it. */
  lemma StopMissesAtMostOne(s: Pool, steps: seq<Step>, t: Tid, u: Tid, waked: Option<Tid>)
    requires Initial(s)
    requires var r := Run(s, steps);
             r.poolNotified && t in r.threads && r.threads[t].Sleeping? && Enabled(r, Release(u, waked))
    ensures var r := Run(s, steps);
            && waked == Some(t)
            && forall v | v in r.threads :: !Apply(r, Release(u, waked)).threads[v].Sleeping?
  {
    RunKeepsInvariant(s, steps);
    var r := Run(s, steps);
    hide Run, ConnsBalanced, JobsBalanced, PoolMutexFree;
    assert MissedIt(r.threads[t]);
    assert forall v | v in r.threads && r.threads[v].Sleeping? :: MissedIt(r.threads[v]);
  }

  // ----- Who can miss the call to stop -----

  /** The client just after everybody waiting for a connection was woken to stop. */
  predicate JustNotified(s: Pool) {
    s.stop && forall t | t in s.threads :: !s.threads[t].Sleeping?
  }

  /** Since woken, only threads that were just falling asleep are blocked. */
  predicate OnlyLate(woken: Pool, s: Pool) {
    && s.stop && s.threads.Keys == woken.threads.Keys
    && forall t | t in s.threads && MissedIt(s.threads[t]) :: woken.threads[t].Blocking?
  }

  lemma OnlyLateKept(woken: Pool, s: Pool, step: Step)
    requires OnlyLate(woken, s) && Enabled(s, step)
    ensures OnlyLate(woken, Apply(s, step))
  {
    hide Wakes, PoolMutexFree, AfterFetch, AfterFinish, Wake, WakeAll;
    FlagsOnlyRise(s, step);
    if step.Release? {
      ReleaseMoves(s, step.t, step.waked);
    } else if !step.Check? && !step.Block? {
      NoNewSleepers(s, step);
      hide Apply, Enabled;
    }
  }

  lemma {:induction false} OnlyLateRemain(woken: Pool, more: seq<Step>)
    requires JustNotified(woken)
    ensures OnlyLate(woken, Run(woken, more))
  {
    if |more| > 0 {
      OnlyLateRemain(woken, more[..|more| - 1]);
      hide OnlyLate, Apply, Enabled;
      var before, step := Run(woken, more[..|more| - 1]), more[|more| - 1];
      if Enabled(before, step) { OnlyLateKept(woken, before, step); }
    }
  }

  /** Exactly who sleeps after everybody was woken to stop: a thread is ever asleep again if and
      only if it was between finding nothing and falling asleep at that moment. */
  lemma LateSleeperIff(s: Pool, t: Tid)
    requires Enabled(s, NotifyAllPool) && t in s.threads
    ensures var woken := Apply(s, NotifyAllPool);
            && t in woken.threads
            && ((exists more :: AsleepAfter(woken, more, t)) <==> woken.threads[t].Blocking?)
  {
    var woken := Apply(s, NotifyAllPool);
    if woken.threads[t].Blocking? {
      assert Run(woken, [Block(t)][..0]) == woken;
      assert AsleepAfter(woken, [Block(t)], t);
    }
    forall more | AsleepAfter(woken, more, t)
      ensures woken.threads[t].Blocking?
    {
      OnlyLateRemain(woken, more);
    }
  }

  ghost predicate AsleepAfter(s: Pool, more: seq<Step>, t: Tid) {
    t in Run(s, more).threads && Run(s, more).threads[t].Sleeping?
  }

  lemma RunSnoc(s: Pool, steps: seq<Step>, step: Step)
    requires Enabled(Run(s, steps), step)
    ensures Run(s, steps + [step]) == Apply(Run(s, steps), step)
  {
    hide Enabled, Apply;
    assert (steps + [step])[..|steps|] == steps;
  }

  const TWO_WORKERS := Pool([7], {1, 2}, [7], map[1 := Idle, 2 := Idle], [], 0, [], [], [], [], [], false, false, {})
  const RUSH: seq<Step> := [Submit(true), Submit(true), Fetch(1), Check(1), Fetch(2), Check(2)]
  const RUSHED := TWO_WORKERS.(
    free := [], notifies := 2, submitted := [Job(0, true), Job(1, true)],
    threads := map[1 := Holds(Work(Job(0, true)), 7), 2 := Blocking(Work(Job(1, true)))])

  /** Two workers want the one connection. */
  lemma TwoWantOne()
    ensures Run(TWO_WORKERS, RUSH) == RUSHED
  {
    var s := TWO_WORKERS;
    assert Run(s, []) == s;
    hide Run;
    RunSnoc(s, [], Submit(true));
    RunSnoc(s, [Submit(true)], Submit(true));
    assert RUSH[..2] == [Submit(true)] + [Submit(true)];
    RunSnoc(s, RUSH[..2], Fetch(1));
    assert RUSH[..3] == RUSH[..2] + [Fetch(1)];
    RunSnoc(s, RUSH[..3], Check(1));
    assert RUSH[..4] == RUSH[..3] + [Check(1)];
    RunSnoc(s, RUSH[..4], Fetch(2));
    assert RUSH[..5] == RUSH[..4] + [Fetch(2)];
    RunSnoc(s, RUSH[..5], Check(2));
    assert RUSH == RUSH[..5] + [Check(2)];
  }

  /** It does happen: the stop comes while the second worker is falling asleep. */
  lemma StopCanMissOne()
    ensures var r := Run(TWO_WORKERS, RUSH + [Stop] + [NotifyAllPool] + [Block(2)]);
            Initial(TWO_WORKERS) && r.poolNotified && 2 in r.threads && r.threads[2].Sleeping?
  {
    TwoWantOne();
    hide Run, RUSH;
    RunSnoc(TWO_WORKERS, RUSH, Stop);
    RunSnoc(TWO_WORKERS, RUSH + [Stop], NotifyAllPool);
    RunSnoc(TWO_WORKERS, RUSH + [Stop] + [NotifyAllPool], Block(2));
  }

  lemma {:induction false} RunKeepsOrder(s: Pool, steps: seq<Step>, w: Tid)
    requires Initial(s) && s.workers == {w}
    ensures InOrder(Run(s, steps), w)
  {
    if |steps| > 0 {
      var before, step := Run(s, steps[..|steps| - 1]), steps[|steps| - 1];
      RunKeepsOrder(s, steps[..|steps| - 1], w);
      if Enabled(before, step) { OrderKept(before, step, w); }
      hide InOrder, Apply, Enabled;
    }
  }

  /** With one worker the callbacks run in the order their jobs were submitted. */
  lemma CallbacksRunInOrder(s: Pool, steps: seq<Step>, w: Tid)
    requires Initial(s) && s.workers == {w}
    ensures Run(s, steps).delivered <= Callbacks(Run(s, steps).submitted)
  {
    RunKeepsOrder(s, steps, w);
    RunKeepsInvariant(s, steps);
    var r := Run(s, steps);
    hide Run, Callbacks, Carried, ConnsBalanced, JobsBalanced;
    var behind := r.batch + r.completed + Carried(r.threads[w]) + r.jobs;
    assert Line(r, w) == r.delivered + behind;
    CallbacksConcat(r.delivered, behind);
    AllCallbacks(r.delivered);
  }

  // ----- The fields behind the mutexes -----

  /** The shared fields. Each method is what one thread does while it holds a mutex, proved
      against the step of the same thread; the ghost parameter is the whole client. */
  class ClientImpl {
    const allConnections: seq<Conn>
    var freeConnections: seq<Conn>
    var jobs: seq<Job>
    var completedJobs: seq<Job>
    var stopRequested: bool

    ghost predicate Shows(s: Pool)
      reads this
    {
      && s.all == allConnections && s.free == freeConnections && s.jobs == jobs
      && s.completed == completedJobs && s.stop == stopRequested
    }

    constructor (connections: seq<Conn>)
      ensures allConnections == freeConnections == connections
      ensures jobs == [] && completedJobs == [] && !stopRequested
    {
      allConnections, freeConnections := connections, connections;
      jobs, completedJobs, stopRequested := [], [], false;
    }

    method Execute(job: Job, ghost s: Pool)
      requires Shows(s) && job.id == |s.submitted|
      modifies this
      ensures Shows(Apply(s, Submit(job.callback)))
    {
      jobs := jobs + [job];
    }

    /** None: the worker sleeps, or leaves if the client is stopping. */
    method TakeJob(t: Tid, ghost s: Pool) returns (job: Option<Job>)
      requires Shows(s)
      modifies this
      ensures Shows(AfterFetch(s, t))
      ensures AfterFetch(s, t).threads[t]
           == match job {
                case Some(j) => Wants(Work(j))
                case None => if stopRequested || t in s.stopping then Exited else Asleep
              }
    {
      if |jobs| == 0 {
        return None;
      }
      job := Some(jobs[0]);
      jobs := jobs[1..];
    }

    /** The thread waits, or goes on with a connection or without one. */
    method TryAcquire(t: Tid, task: Task, ghost s: Pool) returns (waits: bool, conn: Option<Conn>)
      requires Shows(s)
      modifies this
      ensures Shows(AfterCheck(s, t, task))
      ensures AfterCheck(s, t, task).threads[t]
           == if waits then Blocking(task)
              else match conn { case Some(c) => Holds(task, c) case None => Finished(task, false) }
    {
      if !(stopRequested || |freeConnections| != 0 || |allConnections| == 0) {
        return true, None;
      }
      if stopRequested || |freeConnections| == 0 {
        return false, None;
      }
      waits, conn := false, Some(freeConnections[0]);
      freeConnections := freeConnections[1..];
    }

    method ReleaseConnection(conn: Conn, t: Tid, waked: Option<Tid>, ghost s: Pool)
      requires Shows(s) && Enabled(s, Release(t, waked)) && s.threads[t].conn == conn
      modifies this
      ensures Shows(Apply(s, Release(t, waked)))
    {
      freeConnections := freeConnections + [conn];
    }

    /** A job without a callback is done with. */
    method Complete(t: Tid, job: Job, ghost s: Pool)
      requires Shows(s)
      modifies this
      ensures Shows(AfterFinish(s, t, Work(job)))
    {
      if !job.callback {
        return;
      }
      completedJobs := completedJobs + [job];
    }

    /** Runs the callbacks of everything completed so far, in order. */
    method ProcessTick(ghost s: Pool) returns (called: seq<Job>)
      requires Shows(s) && s.batch == [] && Sorted(s)
      modifies this
      ensures Shows(Apply(s, SwapBatch)) && called == Apply(s, SwapBatch).batch
    {
      var local := completedJobs;
      completedJobs := [];
      called := [];
      var k := 0;
      while k < |local|
        invariant k <= |local| && called == local[..k]
        invariant completedJobs == []
      {
        assert local[k] in s.completed;
        if local[k].callback {
          called := called + [local[k]];
        }
        k := k + 1;
      }
    }
  }
}
