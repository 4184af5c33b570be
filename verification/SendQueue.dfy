/** The WebSocket send queue, shared by the server's sessions and the client: any number of
    threads enqueue, and one writer at a time empties the queue. Each section under the send lock
    is one step, and so is everything that happens between two of them. */
module SendQueue {
  import opened Options

  /** doWrites counts the calls of DoWrite that have not reached the lock yet. A message taken
      from the queue is first started and then outstanding until its completion handler runs.
      enqueued is every message ever enqueued, in order. */
  datatype State<M> = State(
    queue: seq<M>, writeInProgress: bool,
    doWrites: nat, started: seq<M>, outstanding: seq<M>,
    written: seq<M>, failed: seq<M>, enqueued: seq<M>)

  function Start<M>(): State<M> {
    State([], false, 0, [], [], [], [], [])
  }

  datatype Step<M> =
    | Enqueue(message: M)   // the locked part of EnqueueSendInternal
    | TakeNext              // the locked part of DoWrite
    | BeginWrite            // async_write
    | WriteDone             // OnWrite without an error
    | WriteFailed           // OnWrite with an error: the stream is closed, nothing else happens

  predicate Enabled<M>(s: State<M>, step: Step<M>) {
    match step
    case Enqueue(_) => true
    case TakeNext => s.doWrites > 0
    case BeginWrite => s.started != []
    case WriteDone => s.outstanding != []
    case WriteFailed => s.outstanding != []
  }

  /** What the locked part of EnqueueSendInternal leaves, and whether the caller must write. */
  function Pushed<M>(queue: seq<M>, writeInProgress: bool, m: M): (seq<M>, bool, bool) {
    (queue + [m], true, !writeInProgress)
  }

  /** What the locked part of DoWrite leaves, and the message it took. */
  function Taken<M>(queue: seq<M>, writeInProgress: bool): (seq<M>, bool, Option<M>) {
    if queue == [] then (queue, false, None) else (queue[1..], writeInProgress, Some(queue[0]))
  }

  function Apply<M>(s: State<M>, step: Step<M>): State<M>
    requires Enabled(s, step)
  {
    match step
    case Enqueue(m) =>
      var (queue, busy, mine) := Pushed(s.queue, s.writeInProgress, m);
      s.(queue := queue, writeInProgress := busy, doWrites := if mine then s.doWrites + 1 else s.doWrites,
         enqueued := s.enqueued + [m])
    case TakeNext =>
      var (queue, busy, next) := Taken(s.queue, s.writeInProgress);
      s.(queue := queue, writeInProgress := busy, doWrites := s.doWrites - 1,
         started := match next { case None => s.started case Some(m) => s.started + [m] })
    case BeginWrite => s.(started := s.started[1..], outstanding := s.outstanding + [s.started[0]])
    case WriteDone =>
      s.(outstanding := s.outstanding[1..], written := s.written + [s.outstanding[0]], doWrites := s.doWrites + 1)
    case WriteFailed =>
      s.(outstanding := s.outstanding[1..], failed := s.failed + [s.outstanding[0]])
  }

  /** The state after a run; what is not possible does not happen. */
  function Run<M>(steps: seq<Step<M>>): State<M> {
    if |steps| == 0 then Start()
    else Then(Run(steps[..|steps| - 1]), steps[|steps| - 1])
  }

  function Then<M>(s: State<M>, step: Step<M>): State<M> {
    if Enabled(s, step) then Apply(s, step) else s
  }

  // ----- What every run keeps -----

  /** How many parties may touch the stream: DoWrite calls on their way and writes under way. */
  function Writers<M>(s: State<M>): nat {
    s.doWrites + |s.started| + |s.outstanding|
  }

  ghost predicate Invariant<M>(s: State<M>) {
    && Writers(s) <= 1
    && (s.writeInProgress <==> Writers(s) == 1 || s.failed != [])
    && (s.queue != [] ==> s.writeInProgress)
    && (s.failed != [] ==> Writers(s) == 0 && |s.failed| == 1)
    && s.enqueued == s.written + s.failed + s.outstanding + s.started + s.queue
  }

  lemma EnqueueKeeps<M>(s: State<M>, m: M)
    requires Invariant(s)
    ensures Invariant(Apply(s, Enqueue(m)))
  {
  }

  lemma TakeNextKeeps<M>(s: State<M>)
    requires Invariant(s) && s.doWrites > 0
    ensures Invariant(Apply(s, TakeNext))
  {
  }

  lemma BeginKeeps<M>(s: State<M>)
    requires Invariant(s) && s.started != []
    ensures Invariant(Apply(s, BeginWrite))
  {
  }

  lemma EndKeeps<M>(s: State<M>, step: Step<M>)
    requires Invariant(s) && s.outstanding != [] && (step.WriteDone? || step.WriteFailed?)
    ensures Invariant(Apply(s, step))
  {
  }

  lemma WriteKeeps<M>(s: State<M>, step: Step<M>)
    requires Invariant(s) && Enabled(s, step) && (step.BeginWrite? || step.WriteDone? || step.WriteFailed?)
    ensures Invariant(Apply(s, step))
  {
    hide Invariant, Apply;
    if step.BeginWrite? { BeginKeeps(s); } else { EndKeeps(s, step); }
  }

  lemma {:induction false} RunKeepsInvariant<M>(steps: seq<Step<M>>)
    ensures Invariant(Run(steps))
  {
    if |steps| > 0 {
      var s, step := Run(steps[..|steps| - 1]), steps[|steps| - 1];
      RunKeepsInvariant(steps[..|steps| - 1]);
      if Enabled(s, step) {
        match step
        case Enqueue(m) => EnqueueKeeps(s, m);
        case TakeNext => TakeNextKeeps(s);
        case _ => WriteKeeps(s, step);
      }
      hide Invariant, Apply;
    }
  }

  // ----- What follows for every run -----

  /** There is never more than one writer, so no two writes are ever under way together. */
  lemma OneWriter<M>(steps: seq<Step<M>>)
    ensures Writers(Run(steps)) <= 1
  {
    RunKeepsInvariant(steps);
  }

  /** The flag says whether there is a writer, as long as no write has failed; once one has, there
      is none any more and the flag stays up. */
  lemma FlagIsWriter<M>(steps: seq<Step<M>>)
    ensures var s := Run(steps);
            && (s.writeInProgress <==> Writers(s) == 1 || s.failed != [])
            && (s.failed != [] ==> Writers(s) == 0)
  {
    RunKeepsInvariant(steps);
  }

  /** After a failed write the only step left is enqueueing. */
  lemma {:induction false} FailureIsFinal<M>(steps: seq<Step<M>>, more: seq<Step<M>>)
    requires Run(steps).failed != []
    ensures var (s, t) := (Run(steps), Run(steps + more));
            && t.written == s.written && t.failed == s.failed && Writers(t) == 0 && t.writeInProgress
            && s.queue <= t.queue && t.enqueued == s.written + s.failed + t.queue
    decreases |more|
  {
    RunKeepsInvariant(steps);
    if |more| == 0 {
      assert steps + more == steps;
    } else {
      var front, step := more[..|more| - 1], more[|more| - 1];
      FailureIsFinal(steps, front);
      assert (steps + more)[..|steps + more| - 1] == steps + front;
      var t := Run(steps + front);
      hide Run, Invariant;
      assert Enabled(t, step) ==> step.Enqueue?;
    }
  }

  /** No lost wake-up: a message left in the queue has a writer coming for it, unless a write failed. */
  lemma NoLostWakeUp<M>(steps: seq<Step<M>>)
    ensures var s := Run(steps);
            s.queue != [] && s.failed == [] ==> Writers(s) == 1
  {
    RunKeepsInvariant(steps);
  }

  /** The peer gets the messages in the order they were enqueued: what was written, then what is
      under way, then what is queued is exactly what was enqueued. A failed write comes last. */
  lemma OrderIsEnqueueOrder<M>(steps: seq<Step<M>>)
    ensures var s := Run(steps);
            && s.enqueued == s.written + s.failed + s.outstanding + s.started + s.queue
            && |s.failed| + |s.outstanding| + |s.started| <= 1
  {
    RunKeepsInvariant(steps);
  }

  /** Every message enqueued is written, in the order the writer's own steps are taken, if no
      write fails and nobody enqueues more. */
  lemma {:induction false} Drains<M>(s: State<M>)
    requires Invariant(s) && s.failed == []
    ensures exists steps: seq<Step<M>> ::
      && (forall step | step in steps :: step.TakeNext? || step.BeginWrite? || step.WriteDone?)
      && var t := After(s, steps);
         t.written == s.enqueued && t.queue == [] && Writers(t) == 0 && !t.writeInProgress
    decreases 3 * |s.queue| + 3 * |s.started| + 2 * |s.outstanding| + s.doWrites
  {
    if Writers(s) == 0 {
      assert s.queue == [];
      assert After(s, []) == s;
      assert s.written == s.enqueued;
    } else {
      var step: Step<M> := if s.doWrites > 0 then TakeNext else if s.started != [] then BeginWrite else WriteDone;
      var t := Apply(s, step);
      if step.TakeNext? { TakeNextKeeps(s); } else { WriteKeeps(s, step); }
      Drains(t);
      hide Invariant;
      var rest: seq<Step<M>> :| (forall e | e in rest :: e.TakeNext? || e.BeginWrite? || e.WriteDone?)
        && var u := After(t, rest);
           u.written == t.enqueued && u.queue == [] && Writers(u) == 0 && !u.writeInProgress;
      var steps := [step] + rest;
      assert steps[1..] == rest;
      assert After(s, steps) == After(t, rest);
      assert t.enqueued == s.enqueued;
    }
  }

  function After<M>(s: State<M>, steps: seq<Step<M>>): State<M>
    decreases |steps|
  {
    if |steps| == 0 then s else After(Then(s, steps[0]), steps[1..])
  }

  // ----- The fields behind the lock -----

  class Queue<M(0)> {
    var sendQueue: seq<M>
    var writeInProgress: bool

    constructor ()
      ensures sendQueue == [] && !writeInProgress
    {
      sendQueue, writeInProgress := [], false;
    }

    /** The locked part of EnqueueSendInternal; afterwards the caller runs DoWrite if it must. */
    method Push(m: M) returns (mustWrite: bool)
      modifies this
      ensures (sendQueue, writeInProgress, mustWrite) == Pushed(old(sendQueue), old(writeInProgress), m)
    {
      sendQueue := sendQueue + [m];
      if writeInProgress {
        return false;
      }
      writeInProgress := true;
      return true;
    }

    /** The locked part of DoWrite; afterwards the message, if any, is written. */
    method Take() returns (next: Option<M>)
      modifies this
      ensures (sendQueue, writeInProgress, next) == Taken(old(sendQueue), old(writeInProgress))
    {
      if |sendQueue| == 0 {
        writeInProgress := false;
        return None;
      }
      next := Some(sendQueue[0]);
      sendQueue := sendQueue[1..];
    }
  }
}
