/** Laws over whole runs of the reassembly buffer: messages do not disturb each other, completions
    are paid for by arrivals, and the wrapping clock expires entries at their true age. */
module ReassemblyLaws {
  import opened LittleEndian
  import opened Coverage
  import opened Reassembly
  import opened ReassemblyRuns

  // ----- Deliveries, in order, whether or not they have been popped -----

  ghost predicate Completes(u: Setup, events: seq<Event>)
    requires Fit(u)
  {
    |events| > 0 && Last(events).Arrive? && Answer(u, events) == Completed
  }

  ghost function LastDelivery(u: Setup, events: seq<Event>): CompletedMessage
    requires Fit(u) && Completes(u, events)
  {
    CompletedPassed(u, events);
    CompletedMessage(Last(events).f.messageId, FilledEntry(u, events).buffer)
  }

  ghost function Deliveries(u: Setup, events: seq<Event>): seq<CompletedMessage>
    requires Fit(u)
  {
    if |events| == 0 then []
    else if Completes(u, events) then Deliveries(u, Front(events)) + [LastDelivery(u, events)]
    else Deliveries(u, Front(events))
  }

  lemma LastDeliveryIs(u: Setup, events: seq<Event>, m: CompletedMessage)
    requires Fit(u) && Completes(u, events)
    requires Run(u, events).completed == Run(u, Front(events)).completed + [m]
    ensures LastDelivery(u, events) == m
  {
    CompletedPassed(u, events);
    hide Run, Answer, FilledEntry, CopiedIn;
    var q := Run(u, Front(events)).completed;
    assert (q + [m])[|q|] == m;
  }

  /** Pops that found something. */
  ghost function Taken(u: Setup, events: seq<Event>): nat
    requires Fit(u)
  {
    if |events| == 0 then 0
    else Taken(u, Front(events)) + (if Last(events).Pop? && |Run(u, Front(events)).completed| > 0 then 1 else 0)
  }

  lemma QueueStep(u: Setup, s: State, e: Event)
    requires Fit(u) && StateInvariant(s) && !e.Pop?
    requires e.Arrive? ==> AddStep(u.cfg, u.sort, e.now, s, e.f).1 != Completed
    ensures Step(u, s, e).completed == s.completed
  {
    hide EntryInvariant, Filled, Fresh, Screen, SameParams;
  }

  lemma QueueAfter(u: Setup, events: seq<Event>)
    requires Fit(u) && |events| > 0
    ensures var q := Run(u, Front(events)).completed;
            Run(u, events).completed
            == if Completes(u, events) then q + [LastDelivery(u, events)]
               else if Last(events).Pop? && |q| > 0 then q[1..]
               else q
    ensures Completes(u, events) ==> Last(events).Arrive?
  {
    if Completes(u, events) {
      CompletedPassed(u, events);
    } else if !Last(events).Pop? {
      QueueStep(u, Run(u, Front(events)), Last(events));
    }
    hide Answer, FilledEntry, CopiedIn, AddStep, CleanupStep;
  }

  lemma CountsAfter(u: Setup, events: seq<Event>)
    requires Fit(u) && |events| > 0
    ensures Taken(u, events)
         == Taken(u, Front(events)) + (if Last(events).Pop? && |Run(u, Front(events)).completed| > 0 then 1 else 0)
    ensures Deliveries(u, events)
         == if Completes(u, events) then Deliveries(u, Front(events)) + [LastDelivery(u, events)]
            else Deliveries(u, Front(events))
  {
    hide Run, Completes, LastDelivery;
  }

  /** The queue is first in, first out: what is in it is what was delivered and not yet popped. */
  lemma {:induction false} QueueIsFifo(u: Setup, events: seq<Event>)
    requires Fit(u)
    ensures Taken(u, events) <= |Deliveries(u, events)|
    ensures Run(u, events).completed == Deliveries(u, events)[Taken(u, events)..]
    decreases |events|
  {
    if |events| == 0 {
    } else {
      hide Run, Completes, LastDelivery, Taken, Deliveries;
      QueueIsFifo(u, Front(events));
      QueueAfter(u, events);
      CountsAfter(u, events);
    }
  }

  // ----- Non-interference -----

  predicate Concerns(e: Event, id: u32) {
    match e
    case Arrive(now, f) => f.messageId == id
    case Cleanup(now) => true
    case Pop => false
  }

  /** The events that matter to one message id. */
  function Own(events: seq<Event>, id: u32): seq<Event> {
    if |events| == 0 then []
    else if Concerns(Last(events), id) then Own(Front(events), id) + [Last(events)]
    else Own(Front(events), id)
  }

  function OwnDeliveries(log: seq<CompletedMessage>, id: u32): seq<CompletedMessage> {
    if |log| == 0 then []
    else if log[|log| - 1].messageId == id then OwnDeliveries(log[..|log| - 1], id) + [log[|log| - 1]]
    else OwnDeliveries(log[..|log| - 1], id)
  }

  /** What the fragments of one id were answered. */
  ghost function Answers(u: Setup, events: seq<Event>, id: u32): seq<Outcome>
    requires Fit(u)
  {
    if |events| == 0 then []
    else if Last(events).Arrive? && Last(events).f.messageId == id then
      Answers(u, Front(events), id) + [Answer(u, events)]
    else Answers(u, Front(events), id)
  }

  ghost predicate SameEntry(s: State, t: State, id: u32) {
    && (id in s.messages <==> id in t.messages)
    && (id in s.messages ==> s.messages[id] == t.messages[id])
  }

  lemma OthersLeaveEntry(u: Setup, s: State, e: Event, id: u32)
    requires Fit(u) && StateInvariant(s) && !Concerns(e, id)
    ensures SameEntry(s, Step(u, s, e), id)
  {
    hide EntryInvariant, Filled, Fresh, Screen, SameParams;
  }

  lemma OwnStepAlike(u: Setup, s: State, t: State, e: Event, id: u32)
    requires Fit(u) && StateInvariant(s) && StateInvariant(t) && SameEntry(s, t, id) && Concerns(e, id)
    ensures SameEntry(Step(u, s, e), Step(u, t, e), id)
    ensures e.Arrive? ==> AddStep(u.cfg, u.sort, e.now, s, e.f).1 == AddStep(u.cfg, u.sort, e.now, t, e.f).1
  {
    hide EntryInvariant, Filled, Fresh, Screen, SameParams, Coverage.Accepted;
  }

  lemma OwnLast(events: seq<Event>, id: u32)
    requires |events| > 0 && Concerns(Last(events), id)
    ensures |Own(events, id)| > 0
    ensures Front(Own(events, id)) == Own(Front(events), id) && Last(Own(events, id)) == Last(events)
  {
  }

  lemma {:induction false} EntryIndependent(u: Setup, events: seq<Event>, id: u32)
    requires Fit(u)
    ensures SameEntry(Run(u, events), Run(u, Own(events, id)), id)
    decreases |events|
  {
    if |events| > 0 {
      EntryIndependent(u, Front(events), id);
      if Concerns(Last(events), id) {
        OwnLast(events, id);
        OwnStepAlike(u, Run(u, Front(events)), Run(u, Own(Front(events), id)), Last(events), id);
      } else {
        OthersLeaveEntry(u, Run(u, Front(events)), Last(events), id);
      }
      hide Step;
    }
  }

  lemma AnswerIndependent(u: Setup, events: seq<Event>, id: u32)
    requires Fit(u) && |events| > 0 && Last(events).Arrive? && Last(events).f.messageId == id
    ensures |Own(events, id)| > 0 && Last(Own(events, id)) == Last(events)
    ensures Answer(u, events) == Answer(u, Own(events, id))
    ensures Completes(u, events) ==> LastDelivery(u, events) == LastDelivery(u, Own(events, id))
  {
    OwnLast(events, id);
    EntryIndependent(u, Front(events), id);
    OwnStepAlike(u, Run(u, Front(events)), Run(u, Own(Front(events), id)), Last(events), id);
    hide Run, AddStep, Filled, Fresh, EntryInvariant;
  }

  lemma OwnDeliveriesLast(log: seq<CompletedMessage>, m: CompletedMessage, id: u32)
    ensures OwnDeliveries(log + [m], id)
         == if m.messageId == id then OwnDeliveries(log, id) + [m] else OwnDeliveries(log, id)
  {
  }

  lemma {:induction false} AnswersIndependent(u: Setup, events: seq<Event>, id: u32)
    requires Fit(u)
    ensures Answers(u, events, id) == Answers(u, Own(events, id), id)
    decreases |events|
  {
    if |events| > 0 {
      AnswersIndependent(u, Front(events), id);
      if Concerns(Last(events), id) {
        OwnLast(events, id);
        if Last(events).Arrive? { AnswerIndependent(u, events, id); }
      }
      hide Answer;
    }
  }

  lemma DeliveredId(u: Setup, events: seq<Event>)
    requires Fit(u) && Completes(u, events)
    ensures LastDelivery(u, events).messageId == Last(events).f.messageId
    ensures Deliveries(u, events) == Deliveries(u, Front(events)) + [LastDelivery(u, events)]
  {
  }

  lemma {:induction false} DeliveriesIndependent(u: Setup, events: seq<Event>, id: u32)
    requires Fit(u)
    ensures OwnDeliveries(Deliveries(u, events), id) == Deliveries(u, Own(events, id))
    decreases |events|
  {
    if |events| > 0 {
      DeliveriesIndependent(u, Front(events), id);
      if Completes(u, events) {
        DeliveredId(u, events);
        OwnDeliveriesLast(Deliveries(u, Front(events)), LastDelivery(u, events), id);
      }
      if Concerns(Last(events), id) {
        OwnLast(events, id);
        if Last(events).Arrive? { AnswerIndependent(u, events, id); }
      }
      hide Answer, LastDelivery, OwnDeliveries;
    }
  }

  /** Every message id fares as if the others were not there: same answers, same entry, same
      deliveries as when only its own fragments and the cleanups had happened. */
  lemma NonInterference(u: Setup, events: seq<Event>, id: u32)
    requires Fit(u)
    ensures SameEntry(Run(u, events), Run(u, Own(events, id)), id)
    ensures Answers(u, events, id) == Answers(u, Own(events, id), id)
    ensures OwnDeliveries(Deliveries(u, events), id) == Deliveries(u, Own(events, id))
  {
    EntryIndependent(u, events, id);
    AnswersIndependent(u, events, id);
    DeliveriesIndependent(u, events, id);
  }

  // ----- Conservation -----

  /** Fragments seen with this id, index and count, accepted or not. */
  function Arrivals(events: seq<Event>, id: u32, i: nat, c: nat): nat {
    if |events| == 0 then 0
    else Arrivals(Front(events), id, i, c) + (if IsFragment(Last(events), id, i, c) then 1 else 0)
  }

  predicate IsFragment(e: Event, id: u32, i: nat, c: nat) {
    e.Arrive? && e.f.messageId == id && e.f.index == i && e.f.count == c
  }

  ghost predicate CompletesMessage(u: Setup, events: seq<Event>, id: u32, c: nat)
    requires Fit(u)
  {
    Completes(u, events) && Last(events).f.messageId == id && Last(events).f.count == c
  }

  ghost function Completions(u: Setup, events: seq<Event>, id: u32, c: nat): nat
    requires Fit(u)
  {
    if |events| == 0 then 0
    else Completions(u, Front(events), id, c) + (if CompletesMessage(u, events, id, c) then 1 else 0)
  }

  /** A fragment received and not yet used up. */
  predicate Held(s: State, id: u32, i: nat, c: nat) {
    && id in s.messages && s.messages[id].fragmentCount == c
    && i < |s.messages[id].fragments| && s.messages[id].fragments[i].received
  }

  lemma AcceptedHeld(u: Setup, s: State, now: u32, f: Fragment, i: nat, c: nat)
    requires Fit(u) && StateInvariant(s) && AddStep(u.cfg, u.sort, now, s, f).1 == Outcome.Accepted
    requires Held(AddStep(u.cfg, u.sort, now, s, f).0, f.messageId, i, c)
    ensures Held(s, f.messageId, i, c) || (f.index == i && f.count == c)
  {
    hide Overwrite, Coverage.Accepted;
    TargetInvariant(u.cfg, now, s, f);
    var t := Target(now, s, f);
    FilledShape(u.cfg, t, f);
    assert AddStep(u.cfg, u.sort, now, s, f).0.messages[f.messageId] == Filled(t, f);
    if i != f.index { assert t.fragments[i].received; }
  }

  lemma CompletedErases(u: Setup, s: State, now: u32, f: Fragment)
    requires Fit(u) && StateInvariant(s) && AddStep(u.cfg, u.sort, now, s, f).1 == Completed
    ensures f.messageId !in AddStep(u.cfg, u.sort, now, s, f).0.messages
  {
  }

  lemma HeldComesFrom(u: Setup, s: State, e: Event, id: u32, i: nat, c: nat)
    requires Fit(u) && StateInvariant(s) && Held(Step(u, s, e), id, i, c)
    ensures Held(s, id, i, c) || IsFragment(e, id, i, c)
    ensures e.Arrive? && AddStep(u.cfg, u.sort, e.now, s, e.f).1 == Completed ==> e.f.messageId != id
  {
    hide AddStep, StateInvariant, Sorts;
    if e.Arrive? && e.f.messageId == id && AddStep(u.cfg, u.sort, e.now, s, e.f).1 == Outcome.Accepted {
      AcceptedHeld(u, s, e.now, e.f, i, c);
    } else {
      KeptUnlessAccepted(u, s, e, id);
      if e.Arrive? && AddStep(u.cfg, u.sort, e.now, s, e.f).1 == Completed {
        CompletedErases(u, s, e.now, e.f);
      }
    }
  }

  lemma CompletionUses(u: Setup, s: State, now: u32, f: Fragment, i: nat)
    requires Fit(u) && StateInvariant(s) && AddStep(u.cfg, u.sort, now, s, f).1 == Completed && i < f.count
    ensures Held(s, f.messageId, i, f.count) || i == f.index
  {
    TargetInvariant(u.cfg, now, s, f);
    var e := Target(now, s, f);
    FilledShape(u.cfg, e, f);
    hide EntryInvariant, Overwrite;
    assert Filled(e, f).fragments[i].received;
  }

  /** Completions never outrun arrivals: each one uses up one arrival of every index. A replay of a
      whole message is delivered again, so equality is possible, but nothing is made from nothing. */
  lemma {:induction false} Conservation(u: Setup, events: seq<Event>, id: u32, i: nat, c: nat)
    requires Fit(u) && i < c
    ensures Completions(u, events, id, c) + (if Held(Run(u, events), id, i, c) then 1 else 0)
         <= Arrivals(events, id, i, c)
    decreases |events|
  {
    if |events| > 0 {
      Conservation(u, Front(events), id, i, c);
      var s, e := Run(u, Front(events)), Last(events);
      if Held(Run(u, events), id, i, c) {
        HeldComesFrom(u, s, e, id, i, c);
      }
      if CompletesMessage(u, events, id, c) {
        CompletionUses(u, s, e.now, e.f, i);
      }
      hide Step, AddStep, Held, Run;
    }
  }

  // ----- The wrapping clock -----

  datatype Happening = Received(f: Fragment) | Tick | Taking

  /** Something that happened at a true time; the buffer only sees its 32 low bits. */
  datatype Timed = Timed(at: nat, what: Happening)

  function Reading(at: nat): u32 {
    at % 0x1_0000_0000
  }

  function Seen(t: Timed): Event {
    match t.what
    case Received(f) => Arrive(Reading(t.at), f)
    case Tick => Cleanup(Reading(t.at))
    case Taking => Pop
  }

  function AsSeen(ts: seq<Timed>): (r: seq<Event>)
    ensures |r| == |ts| && forall n | 0 <= n < |ts| :: r[n] == Seen(ts[n])
  {
    seq(|ts|, n requires 0 <= n < |ts| => Seen(ts[n]))
  }

  /** The last cleanup, or the start when there was none yet. */
  function LastTick(ts: seq<Timed>, start: nat): nat {
    if |ts| == 0 then start
    else if ts[|ts| - 1].what.Tick? then ts[|ts| - 1].at
    else LastTick(ts[..|ts| - 1], start)
  }

  /** Time does not run backwards and nothing happens more than gap after the last cleanup. */
  predicate Paced(ts: seq<Timed>, start: nat, gap: nat) {
    |ts| == 0 || (
      && Paced(ts[..|ts| - 1], start, gap)
      && LastTick(ts[..|ts| - 1], start) <= ts[|ts| - 1].at <= LastTick(ts[..|ts| - 1], start) + gap
      && (|ts| > 1 ==> ts[|ts| - 2].at <= ts[|ts| - 1].at)
    )
  }

  lemma {:induction false} CreatedAtBirth(u: Setup, events: seq<Event>, id: u32)
    requires Fit(u) && Open(u, events, id)
    ensures var b := Birth(u, events, id);
            events[b].Arrive? && Run(u, events).messages[id].createdAtMs == events[b].now
    decreases |events|
  {
    var before := Front(events);
    if Open(u, before, id) { CreatedAtBirth(u, before, id); }
    CreationKept(u, Run(u, before), Last(events), id);
    hide Step;
  }

  lemma CreationKept(u: Setup, s: State, e: Event, id: u32)
    requires Fit(u) && StateInvariant(s) && id in Step(u, s, e).messages
    ensures id in s.messages ==> Step(u, s, e).messages[id].createdAtMs == s.messages[id].createdAtMs
    ensures id !in s.messages ==> e.Arrive? && Step(u, s, e).messages[id].createdAtMs == e.now
  {
    hide EntryInvariant, Overwrite, Coverage.Accepted;
  }

  /** The true time at which the present entry was created. */
  ghost function CreatedAt(u: Setup, ts: seq<Timed>, id: u32): nat
    requires Fit(u) && Open(u, AsSeen(ts), id)
  {
    ts[Birth(u, AsSeen(ts), id)].at
  }

  lemma WrapExact(at: nat, since: nat)
    requires since <= at < since + 0x1_0000_0000
    ensures Elapsed(Reading(at), Reading(since)) == at - since
  {
  }

  lemma SeenFront(ts: seq<Timed>)
    requires |ts| > 0
    ensures Front(AsSeen(ts)) == AsSeen(ts[..|ts| - 1]) && Last(AsSeen(ts)) == Seen(ts[|ts| - 1])
  {
  }

  lemma {:induction false} PacedFrom(ts: seq<Timed>, start: nat, gap: nat, n: nat)
    requires Paced(ts, start, gap) && n < |ts|
    ensures ts[n].at <= ts[|ts| - 1].at
    decreases |ts|
  {
    if n < |ts| - 1 {
      PacedFrom(ts[..|ts| - 1], start, gap, n);
    }
  }

  lemma CreatedBefore(u: Setup, ts: seq<Timed>, id: u32)
    requires Fit(u) && |ts| > 0 && Open(u, AsSeen(ts), id) && Open(u, AsSeen(ts[..|ts| - 1]), id)
    ensures CreatedAt(u, ts, id) == CreatedAt(u, ts[..|ts| - 1], id)
  {
    hide Run;
    SeenFront(ts);
  }

  /** Between cleanups: what survived the last one was not too old then. */
  lemma {:induction false} SurvivorsYoung(u: Setup, ts: seq<Timed>, start: nat, gap: nat, id: u32)
    requires Fit(u) && Paced(ts, start, gap) && u.cfg.timeoutMs + gap < 0x1_0000_0000
    requires Open(u, AsSeen(ts), id)
    ensures LastTick(ts, start) <= CreatedAt(u, ts, id) + u.cfg.timeoutMs
    ensures CreatedAt(u, ts, id) <= ts[|ts| - 1].at
    decreases |ts|
  {
    assert |ts| > 0;
    var before, last := ts[..|ts| - 1], ts[|ts| - 1];
    SeenFront(ts);
    PacedFrom(ts, start, gap, Birth(u, AsSeen(ts), id));
    if Open(u, AsSeen(before), id) {
      SurvivorsYoung(u, before, start, gap, id);
      CreatedBefore(u, ts, id);
      if last.what.Tick? {
        TickDecides(u, ts, start, gap, id);
      }
    } else {
      hide Run;
      assert CreatedAt(u, ts, id) == last.at;
    }
  }

  lemma TickDecides(u: Setup, ts: seq<Timed>, start: nat, gap: nat, id: u32)
    requires Fit(u) && Paced(ts, start, gap) && u.cfg.timeoutMs + gap < 0x1_0000_0000
    requires |ts| > 0 && ts[|ts| - 1].what.Tick? && Open(u, AsSeen(ts[..|ts| - 1]), id)
    requires LastTick(ts[..|ts| - 1], start) <= CreatedAt(u, ts[..|ts| - 1], id) + u.cfg.timeoutMs
    requires CreatedAt(u, ts[..|ts| - 1], id) <= ts[|ts| - 1].at
    ensures Open(u, AsSeen(ts), id) <==> ts[|ts| - 1].at - CreatedAt(u, ts[..|ts| - 1], id) <= u.cfg.timeoutMs
  {
    var before, last := ts[..|ts| - 1], ts[|ts| - 1];
    SeenFront(ts);
    CreatedAtBirth(u, AsSeen(before), id);
    WrapExact(last.at, CreatedAt(u, before, id));
  }

  /** With cleanups at most gap apart and timeout + gap below 2^32 ms, a cleanup drops an entry
      exactly when its true age exceeds the timeout, however often the clock has wrapped. */
  lemma ExpiryIsExact(u: Setup, ts: seq<Timed>, start: nat, gap: nat, id: u32)
    requires Fit(u) && Paced(ts, start, gap) && u.cfg.timeoutMs + gap < 0x1_0000_0000
    requires |ts| > 0 && ts[|ts| - 1].what.Tick? && Open(u, AsSeen(ts[..|ts| - 1]), id)
    ensures Open(u, AsSeen(ts), id) <==> ts[|ts| - 1].at - CreatedAt(u, ts[..|ts| - 1], id) <= u.cfg.timeoutMs
  {
    var before := ts[..|ts| - 1];
    SurvivorsYoung(u, before, start, gap, id);
    TickDecides(u, ts, start, gap, id);
  }
}
