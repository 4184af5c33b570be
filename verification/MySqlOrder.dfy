/** The orders the MySQL client keeps, and who gives up, over whole runs with any number of workers:
    jobs leave in the order they came, connections in the order they became free, callbacks in the
    order their jobs finished. */
module MySqlOrder {
  import opened MySqlPool

  // ----- First come, first served -----

  /** The jobs that workers took, in order. */
  function Fetched(s: Pool, steps: seq<Step>): seq<Job> {
    if |steps| == 0 then []
    else
      var (front, step) := (steps[..|steps| - 1], steps[|steps| - 1]);
      var before := Run(s, front);
      if Enabled(before, step) && step.Fetch? && before.jobs != [] then
        Fetched(s, front) + JobWith(Run(s, steps).threads[step.t])
      else Fetched(s, front)
  }

  function JobWith(x: Thread): seq<Job> {
    match JobOf(x)
    case Some(job) => [job]
    case None => []
  }

  lemma FetchTakesFirst(s: Pool, step: Step)
    requires Enabled(s, step)
    ensures var r := Apply(s, step);
            if step.Fetch? && s.jobs != [] then
              && r.submitted == s.submitted && step.t in r.threads
              && JobWith(r.threads[step.t]) + r.jobs == s.jobs
            else if step.Submit? then
              && r.jobs == s.jobs + [Job(|s.submitted|, step.callback)]
              && r.submitted == s.submitted + [Job(|s.submitted|, step.callback)]
            else r.jobs == s.jobs && r.submitted == s.submitted
  {
    hide Wake, WakeAll, Wakes, PoolMutexFree, AfterCheck;
    if step.Fetch? { FetchEnabled(s, step.t); }
    if step.Check? { CheckLeavesJobs(s, step.t, s.threads[step.t].task); }
  }

  lemma FetchEnabled(s: Pool, t: Tid)
    requires Enabled(s, Fetch(t))
    ensures t in s.threads
  {
  }

  lemma CheckLeavesJobs(s: Pool, t: Tid, task: Task)
    ensures var r := AfterCheck(s, t, task);
            && r.jobs == s.jobs && r.submitted == s.submitted && r.completed == s.completed && r.batch == s.batch
            && r.delivered == s.delivered
  {
  }

  /** Every job taken was the oldest one waiting, whatever the number of workers. */
  lemma {:induction false} JobsLeaveInOrder(s: Pool, steps: seq<Step>)
    requires Initial(s)
    ensures Fetched(s, steps) + Run(s, steps).jobs == Run(s, steps).submitted
  {
    if |steps| > 0 {
      hide Apply, Enabled, Initial, JobWith;
      var (front, step) := (steps[..|steps| - 1], steps[|steps| - 1]);
      var before := Run(s, front);
      JobsLeaveInOrder(s, front);
      if Enabled(before, step) {
        FetchTakesFirst(before, step);
        var r := Apply(before, step);
        if step.Fetch? && before.jobs != [] {
          Regroup(Fetched(s, front), JobWith(r.threads[step.t]), r.jobs);
        } else if step.Submit? {
          Regroup(Fetched(s, front), before.jobs, [Job(|before.submitted|, step.callback)]);
        }
      }
    }
  }

  lemma Regroup<T>(a: seq<T>, b: seq<T>, c: seq<T>)
    ensures a + b + c == a + (b + c)
  {
  }

  // ----- Connections go round -----

  /** The connections that were taken, in order. */
  function Took(s: Pool, steps: seq<Step>): seq<Conn> {
    if |steps| == 0 then []
    else
      var (front, step) := (steps[..|steps| - 1], steps[|steps| - 1]);
      if Enabled(Run(s, front), step) && step.Check? && step.t in Run(s, steps).threads
         && Run(s, steps).threads[step.t].Holds?
      then
        Took(s, front) + [Run(s, steps).threads[step.t].conn]
      else Took(s, front)
  }

  /** The connections that were given back, in order. */
  function Returned(s: Pool, steps: seq<Step>): seq<Conn> {
    if |steps| == 0 then []
    else
      var (front, step) := (steps[..|steps| - 1], steps[|steps| - 1]);
      if Enabled(Run(s, front), step) && step.Release? then
        Returned(s, front) + [Run(s, front).threads[step.t].conn]
      else Returned(s, front)
  }

  lemma CheckTakesFirst(s: Pool, t: Tid, task: Task)
    requires t in s.threads
    ensures var r := AfterCheck(s, t, task);
            && r.all == s.all && t in r.threads
            && if r.threads[t].Holds? then s.free == [r.threads[t].conn] + r.free else r.free == s.free
  {
  }

  lemma StepMovesConnections(s: Pool, step: Step)
    requires Enabled(s, step)
    ensures var r := Apply(s, step);
            && r.all == s.all
            && if step.Check? then
                 && step.t in r.threads
                 && if r.threads[step.t].Holds? then s.free == [r.threads[step.t].conn] + r.free else r.free == s.free
               else if step.Release? then r.free == s.free + [s.threads[step.t].conn]
               else r.free == s.free
  {
    hide Wake, WakeAll, Wakes, PoolMutexFree, AfterCheck, AfterFetch, AfterFinish;
    if step.Check? { CheckTakesFirst(s, step.t, s.threads[step.t].task); }
    if step.Fetch? { FetchKeepsFree(s, step.t); }
    if step.Finish? { FinishKeepsFree(s, step.t, s.threads[step.t].task); }
  }

  /** The free connections are a queue: what was taken, then what is free, is what there was at
      first, then what was given back. */
  lemma {:induction false} ConnectionsGoRound(s: Pool, steps: seq<Step>)
    requires Initial(s)
    ensures Run(s, steps).all == s.all
    ensures Took(s, steps) + Run(s, steps).free == s.all + Returned(s, steps)
  {
    if |steps| > 0 {
      hide Apply, Enabled, Initial;
      var (front, step) := (steps[..|steps| - 1], steps[|steps| - 1]);
      ConnectionsGoRound(s, front);
      var before := Run(s, front);
      if Enabled(before, step) {
        StepMovesConnections(before, step);
        var r := Apply(before, step);
        if step.Check? && r.threads[step.t].Holds? {
          Regroup(Took(s, front), [r.threads[step.t].conn], r.free);
        } else if step.Release? {
          Regroup(Took(s, front), before.free, [before.threads[step.t].conn]);
          Regroup(s.all, Returned(s, front), [before.threads[step.t].conn]);
        }
      }
    }
  }

  // ----- Callbacks -----

  /** The jobs with callbacks, in the order their workers were done with them. */
  function Done(s: Pool, steps: seq<Step>): seq<Job> {
    if |steps| == 0 then []
    else
      var (front, step) := (steps[..|steps| - 1], steps[|steps| - 1]);
      var before := Run(s, front);
      if Enabled(before, step) && step.Finish? then
        Done(s, front) + Called(before.threads[step.t].task)
      else Done(s, front)
  }

  function Called(task: Task): seq<Job> {
    if task.Work? && task.job.callback then [task.job] else []
  }

  lemma FinishHandsIn(s: Pool, t: Tid, task: Task)
    ensures var r := AfterFinish(s, t, task);
            r.completed == s.completed + Called(task) && r.batch == s.batch && r.delivered == s.delivered
  {
  }

  lemma StepMovesCallbacks(s: Pool, step: Step)
    requires Enabled(s, step)
    ensures var r := Apply(s, step);
            r.delivered + r.batch + r.completed
            == s.delivered + s.batch + s.completed + if step.Finish? then Called(s.threads[step.t].task) else []
  {
    hide Wake, WakeAll, Wakes, PoolMutexFree, AfterFinish, AfterCheck, Called;
    if step.Finish? { FinishHandsIn(s, step.t, s.threads[step.t].task); }
    if step.Check? { CheckLeavesJobs(s, step.t, s.threads[step.t].task); }
    if step.Deliver? { assert s.batch == [s.batch[0]] + s.batch[1..]; }
  }

  /** Callbacks run, wait in the batch and wait in the queue in the order the workers were done. */
  lemma {:induction false} CallbacksFollowCompletion(s: Pool, steps: seq<Step>)
    requires Initial(s)
    ensures var r := Run(s, steps);
            r.delivered + r.batch + r.completed == Done(s, steps)
  {
    if |steps| > 0 {
      hide Apply, Enabled, Initial, Called;
      var (front, step) := (steps[..|steps| - 1], steps[|steps| - 1]);
      CallbacksFollowCompletion(s, front);
      if Enabled(Run(s, front), step) { StepMovesCallbacks(Run(s, front), step); }
    }
  }

  // ----- Giving up, and leaving -----

  /** Who came back from the pool without a connection, and who has left. */
  ghost predicate Justified(s: Pool) {
    && (forall t | t in s.threads && s.threads[t].Finished? && !s.threads[t].ran :: s.stop || s.all == [])
    && (forall t | t in s.threads && s.threads[t].Exited? :: s.stop)
    && (s.poolNotified ==> s.stop) && (s.stopping != {} ==> s.stop)
  }

  lemma CheckJustified(s: Pool, t: Tid, task: Task)
    requires t in s.threads && Justified(s)
    ensures Justified(AfterCheck(s, t, task))
  {
  }

  lemma FetchJustified(s: Pool, t: Tid)
    requires t in s.threads && Justified(s)
    ensures Justified(AfterFetch(s, t))
  {
  }

  lemma StepJustified(s: Pool, step: Step)
    requires Enabled(s, step) && Justified(s)
    ensures Justified(Apply(s, step))
  {
    hide Wakes, PoolMutexFree, AfterCheck, AfterFetch;
    if step.Check? { CheckJustified(s, step.t, s.threads[step.t].task); }
    if step.Fetch? { FetchJustified(s, step.t); }
  }

  /** A thread comes back without a connection only when the client is stopping or has none at all,
      and a worker leaves only when the client is stopping. */
  lemma {:induction false} GivesUpOnlyIfStopping(s: Pool, steps: seq<Step>, t: Tid)
    requires Initial(s) && t in Run(s, steps).threads
    ensures var r := Run(s, steps);
            && (r.threads[t].Finished? && !r.threads[t].ran ==> r.stop || r.all == [])
            && (r.threads[t].Exited? ==> r.stop)
  {
    AlwaysJustified(s, steps);
    hide Run;
  }

  lemma {:induction false} AlwaysJustified(s: Pool, steps: seq<Step>)
    requires Initial(s)
    ensures Justified(Run(s, steps))
  {
    if |steps| > 0 {
      hide Apply, Enabled, Initial, Justified;
      AlwaysJustified(s, steps[..|steps| - 1]);
      var before, step := Run(s, steps[..|steps| - 1]), steps[|steps| - 1];
      if Enabled(before, step) { StepJustified(before, step); }
    }
  }

  // ----- After the stop -----

  lemma CheckAfterStop(s: Pool, t: Tid, task: Task)
    requires t in s.threads && s.stop
    ensures AfterCheck(s, t, task) == s.(threads := s.threads[t := Finished(task, false)])
  {
  }

  lemma StepAfterStop(s: Pool, step: Step)
    requires Enabled(s, step) && s.stop
    ensures var r := Apply(s, step);
            && r.stop && r.threads.Keys == s.threads.Keys
            && forall t | t in s.threads && r.threads[t].Holds? :: s.threads[t] == r.threads[t]
  {
    hide Wakes, PoolMutexFree, AfterCheck;
    if step.Check? { CheckAfterStop(s, step.t, s.threads[step.t].task); }
  }

  /** Once the client is stopping, nobody is given a connection any more. */
  lemma {:induction false} NothingHandedOutAfterStop(s: Pool, more: seq<Step>, t: Tid)
    requires s.stop && t in s.threads
    ensures var r := Run(s, more);
            r.stop && t in r.threads && (r.threads[t].Holds? ==> s.threads[t] == r.threads[t])
  {
    if |more| > 0 {
      hide Apply, Enabled;
      var before, step := Run(s, more[..|more| - 1]), more[|more| - 1];
      NothingHandedOutAfterStop(s, more[..|more| - 1], t);
      if Enabled(before, step) { StepAfterStop(before, step); }
    }
  }

  ghost predicate NoneAsleep(s: Pool) {
    s.stop && forall t | t in s.threads :: !s.threads[t].Asleep?
  }

  lemma FetchWakeful(s: Pool, t: Tid)
    requires NoneAsleep(s)
    ensures NoneAsleep(AfterFetch(s, t))
  {
  }

  lemma StepWakeful(s: Pool, step: Step)
    requires Enabled(s, step) && NoneAsleep(s)
    ensures NoneAsleep(Apply(s, step))
  {
    hide Wakes, PoolMutexFree, AfterCheck, AfterFetch;
    if step.Check? { CheckAfterStop(s, step.t, s.threads[step.t].task); }
    if step.Fetch? { FetchWakeful(s, step.t); }
  }

  /** Once everybody was told that the client is stopping, no worker ever waits for a job again. */
  lemma {:induction false} NobodyWaitsForJobs(s: Pool, more: seq<Step>)
    requires Enabled(s, NotifyAllQueue)
    ensures NoneAsleep(Run(Apply(s, NotifyAllQueue), more))
  {
    if |more| > 0 {
      hide Apply, Enabled, NoneAsleep;
      var before, step := Run(Apply(s, NotifyAllQueue), more[..|more| - 1]), more[|more| - 1];
      NobodyWaitsForJobs(s, more[..|more| - 1]);
      if Enabled(before, step) { StepWakeful(before, step); }
    }
  }
}
