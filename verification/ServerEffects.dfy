/** What each thing done to the server comes to, over whole runs: the sizes of the messages in the
    log, the sessions that end, the entries a cleanup leaves and what the listener hears. */
module ServerEffects {
  import opened LittleEndian
  import opened UdpPacket
  import opened Reassembly
  import opened ReassemblyRuns
  import opened ReassemblyLaws
  import opened EndToEnd
  import opened ServerLog
  import ReassemblyAnswers

  lemma ExecSnoc(c: ServerConfig, listener: bool, run: seq<Action>, a: Action)
    requires Fit(c.reassembly) && Enabled(c, Exec(c, listener, run), a)
    ensures Exec(c, listener, run + [a]) == Apply(c, Exec(c, listener, run), a)
  {
    hide Invariant, Enabled, Apply;
    assert (run + [a])[..|run|] == run;
  }

  // ----- The size limit, in the log -----

  ghost predicate Small(c: ServerConfig, es: seq<ServerEvent>) {
    forall e | e in es && e.Message? :: 0 < |e.data| <= c.reassembly.cfg.maxMessageSize
  }

  lemma {:induction false} SmallMessages(c: ServerConfig, sid: u64, ms: seq<CompletedMessage>)
    requires forall m | m in ms :: 0 < |m.data| <= c.reassembly.cfg.maxMessageSize
    ensures Small(c, Messages(sid, ms))
  {
    if |ms| > 0 { SmallMessages(c, sid, ms[..|ms| - 1]); }
  }

  lemma Joined(c: ServerConfig, es: seq<ServerEvent>, more: seq<ServerEvent>)
    requires Small(c, es) && Small(c, more)
    ensures Small(c, es + more)
  {
  }

  lemma OnlyOne(c: ServerConfig, ms: seq<CompletedMessage>)
    requires |ms| == 1 && 0 < |ms[0].data| <= c.reassembly.cfg.maxMessageSize
    ensures forall m | m in ms :: 0 < |m.data| <= c.reassembly.cfg.maxMessageSize
  {
  }

  lemma Unfinished(c: ServerConfig, s: Server, sid: u64)
    requires Consistent(c, s) && sid in s.sessions
    ensures Fit(c.reassembly)
    ensures StateInvariant(s.sessions[sid].reassembly) && s.sessions[sid].reassembly.completed == []
  {
    hide Run, StateInvariant;
  }

  lemma FragmentSmall(c: ServerConfig, s: Server, seen: u32, now: u32, sid: u64, f: Fragment)
    requires Consistent(c, s) && Small(c, s.log)
    ensures Small(c, AfterFragment(c, s, seen, now, sid, f).log)
  {
    hide AddStep, Run, Messages, Pops, Small, StateInvariant, Consistent;
    if sid in s.sessions {
      var u, st := c.reassembly, s.sessions[sid].reassembly;
      Unfinished(c, s, sid);
      ReassemblyAnswers.CompletionIsSmall(u, st, now, f);
      var (t, o) := AddStep(u.cfg, u.sort, now, st, f);
      var out := if o == Completed then t.completed else [];
      if o == Completed { OnlyOne(c, out); }
      SmallMessages(c, sid, out);
      Joined(c, s.log, Messages(sid, out));
    }
  }

  lemma {:induction false} EndsAreSmall(c: ServerConfig, order: seq<u64>)
    ensures Small(c, Ends(order))
  {
    NoConnectionInEnds(order);
    hide Ends;
  }

  lemma StepSmall(c: ServerConfig, s: Server, a: Action)
    requires Consistent(c, s) && Enabled(c, s, a) && Small(c, s.log)
    ensures Small(c, Apply(c, s, a).log)
  {
    hide Parse, Truncated, ToFragment, AfterFragment, Drained, Ends;
    match a
    case Receive(seen, now, d) =>
      var p := Parse(Truncated(d));
      FragmentSmall(c, s, seen, now, p.header.sessionId, ToFragment(p));
    case CleanUp(now, clock, order) => EndsAreSmall(c, order);
    case _ =>
  }

  /** No message in the log is empty or larger than the limit. */
  lemma {:induction false} MessagesWithinLimit(c: ServerConfig, listener: bool, run: seq<Action>)
    requires Fit(c.reassembly)
    ensures forall e | e in Exec(c, listener, run).log && e.Message? ::
              0 < |e.data| <= c.reassembly.cfg.maxMessageSize
  {
    if |run| > 0 {
      var s, a := Exec(c, listener, run[..|run| - 1]), run[|run| - 1];
      MessagesWithinLimit(c, listener, run[..|run| - 1]);
      if Enabled(c, s, a) { StepSmall(c, s, a); }
      hide Apply, Enabled, Told, Numbered, Consistent;
    }
  }

  // ----- Sessions that end -----

  /** Ending a session takes it out of the map and tells the listener, once, and nothing else. */
  lemma EndSessionEnds(c: ServerConfig, listener: bool, run: seq<Action>, sid: u64)
    requires Fit(c.reassembly)
    ensures var (s, t) := (Exec(c, listener, run), Exec(c, listener, run + [EndSession(sid)]));
            && t.sessions == s.sessions - {sid}
            && t.log == s.log + (if sid in s.sessions then [Disconnected(sid)] else [])
            && t.events == s.events + (if sid in s.sessions then [Disconnected(sid)] else [])
  {
    ExecSnoc(c, listener, run, EndSession(sid));
    hide Exec, Invariant;
    var s := Exec(c, listener, run);
    if sid !in s.sessions {
      assert s.log + [] == s.log && s.events + [] == s.events && s.sessions - {sid} == s.sessions;
    }
  }

  /** The application has closed this session, if it is still there. */
  ghost predicate Marked(s: Server, sid: u64) {
    sid in s.history && (sid in s.sessions ==> s.sessions[sid].closed)
  }

  lemma HelloLeavesMark(c: ServerConfig, s: Server, now: u32, sid: u64)
    requires Invariant(c, s) && Marked(s, sid) && s.created < ID_SPACE
    ensures Marked(AfterHello(s, now), sid)
  {
    HelloNumbered(s, now);
    hide Numbered, Told, Consistent;
  }

  lemma StepLeavesMark(c: ServerConfig, s: Server, a: Action, sid: u64)
    requires Invariant(c, s) && Enabled(c, s, a) && Marked(s, sid) && Apply(c, s, a).created <= ID_SPACE
    ensures Marked(Apply(c, s, a), sid)
  {
    hide Parse, Truncated, ToFragment, Drained, AddStep, Messages, Pops, Ends, Told, Numbered;
    if a.Receive? {
      var p := Parse(Truncated(a.datagram));
      if p.ok && p.header.kind == HANDSHAKE_HELLO { HelloLeavesMark(c, s, a.seen, sid); }
    }
  }

  lemma {:induction false} MarkStays(c: ServerConfig, listener: bool, run: seq<Action>, more: seq<Action>, sid: u64)
    requires Fit(c.reassembly) && Marked(Exec(c, listener, run), sid)
    requires Exec(c, listener, run + more).created <= ID_SPACE
    ensures Marked(Exec(c, listener, run + more), sid)
    decreases |more|
  {
    if |more| == 0 {
      assert run + more == run;
    } else {
      hide Apply, Enabled, Invariant, Marked;
      var front, a := more[..|more| - 1], more[|more| - 1];
      assert (run + more)[..|run + more| - 1] == run + front;
      var s := Exec(c, listener, run + front);
      if Enabled(c, s, a) { NeverFewer(c, s, a); }
      MarkStays(c, listener, run, front, sid);
      if Enabled(c, s, a) { StepLeavesMark(c, s, a, sid); }
    }
  }

  lemma NeverFewer(c: ServerConfig, s: Server, a: Action)
    requires Invariant(c, s) && Enabled(c, s, a)
    ensures s.created <= Apply(c, s, a).created
  {
    EveryStepLogs(c, s, a);
    hide Apply, Enabled, Told, Numbered, Consistent;
  }

  lemma SweptNow(c: ServerConfig, s: Server, a: Action, sid: u64)
    requires Invariant(c, s) && a.CleanUp? && Enabled(c, s, a) && Marked(s, sid)
    ensures sid !in Apply(c, s, a).sessions && sid in Apply(c, s, a).history
  {
    hide Drained, Ends, Told, Numbered;
  }

  /** A session the application closes is ended by the next cleanup, whatever happens in between,
      and its Disconnected is in the log. */
  lemma ClosedIsSwept(c: ServerConfig, listener: bool, run: seq<Action>, sid: u64, more: seq<Action>, sweep: Action)
    requires Fit(c.reassembly) && sid in Exec(c, listener, run).sessions && sweep.CleanUp?
    requires var all := run + [CloseRequest(sid)] + more;
             && Enabled(c, Exec(c, listener, all), sweep) && Exec(c, listener, all + [sweep]).created <= ID_SPACE
    ensures var t := Exec(c, listener, run + [CloseRequest(sid)] + more + [sweep]);
            sid !in t.sessions && Disconnected(sid) in t.log
  {
    hide Exec, Apply, Enabled, Invariant;
    var marked := run + [CloseRequest(sid)];
    var all := marked + more;
    MarkSet(c, listener, run, sid);
    ExecSnoc(c, listener, all, sweep);
    var s := Exec(c, listener, all);
    NeverFewer(c, s, sweep);
    MarkStays(c, listener, marked, more, sid);
    SweptNow(c, s, sweep, sid);
    GoneIsAnnounced(c, listener, all + [sweep], sid);
  }

  lemma MarkSet(c: ServerConfig, listener: bool, run: seq<Action>, sid: u64)
    requires Fit(c.reassembly) && sid in Exec(c, listener, run).sessions
    ensures Marked(Exec(c, listener, run + [CloseRequest(sid)]), sid)
  {
    ExecSnoc(c, listener, run, CloseRequest(sid));
    var s := Exec(c, listener, run);
    hide Exec, Told, Numbered, Drained;
    assert Invariant(c, s);
  }

  lemma GoneIsAnnounced(c: ServerConfig, listener: bool, run: seq<Action>, sid: u64)
    requires Fit(c.reassembly) && Exec(c, listener, run).created <= ID_SPACE
    requires sid in Exec(c, listener, run).history && sid !in Exec(c, listener, run).sessions
    ensures Disconnected(sid) in Exec(c, listener, run).log
  {
    EverySessionIsTold(c, listener, run, sid);
    var s := Exec(c, listener, run);
    hide Exec, Deliveries, Messages, Of;
    var told := Story(sid, Deliveries(c.reassembly, s.history[sid]), true);
    assert told[|told| - 1] == Disconnected(sid);
    InPart(s.log, Disconnected(sid));
  }

  lemma StepClosesOnly(c: ServerConfig, s: Server, a: Action, sid: u64)
    requires Consistent(c, s) && Enabled(c, s, a)
    requires sid in Apply(c, s, a).sessions && Apply(c, s, a).sessions[sid].closed
    ensures a == CloseRequest(sid) || (sid in s.sessions && s.sessions[sid].closed)
  {
    hide Parse, Truncated, ToFragment, Drained, AddStep, Messages, Pops, Ends;
  }

  /** And only the application closes one. */
  lemma {:induction false} ClosedWasRequested(c: ServerConfig, listener: bool, run: seq<Action>, sid: u64)
    requires Fit(c.reassembly)
    requires sid in Exec(c, listener, run).sessions && Exec(c, listener, run).sessions[sid].closed
    ensures CloseRequest(sid) in run
  {
    if |run| > 0 {
      hide Apply, Enabled, Invariant;
      var s, a := Exec(c, listener, run[..|run| - 1]), run[|run| - 1];
      InvariantIsConsistent(c, s);
      if Enabled(c, s, a) { StepClosesOnly(c, s, a, sid); }
      if a != CloseRequest(sid) { ClosedWasRequested(c, listener, run[..|run| - 1], sid); }
    } else {
      hide Invariant;
    }
  }

  // ----- What a cleanup leaves -----

  /** In every session that goes on, a cleanup leaves exactly the entries that are not older than
      the limit at the time their session's turn comes, as they were. */
  lemma CleanupLeaves(c: ServerConfig, listener: bool, run: seq<Action>, sweep: Action, sid: u64, id: u32)
    requires Fit(c.reassembly) && sweep.CleanUp? && Enabled(c, Exec(c, listener, run), sweep)
    requires sid in Exec(c, listener, run + [sweep]).sessions
    ensures var (s, t) := (Exec(c, listener, run), Exec(c, listener, run + [sweep]));
            && sid in s.sessions && sid in sweep.clock
            && var (before, after) := (s.sessions[sid].reassembly.messages, t.sessions[sid].reassembly.messages);
               && (id in after <==> id in before
                                    && (sweep.clock[sid] - before[id].createdAtMs) % 0x1_0000_0000
                                       <= c.reassembly.cfg.timeoutMs)
               && (id in after ==> after[id] == before[id])
  {
    hide Exec, Apply, Enabled, Invariant;
    ExecSnoc(c, listener, run, sweep);
    var s := Exec(c, listener, run);
    InvariantIsConsistent(c, s);
    CleanedEntries(c, s, sweep, sid, id);
  }

  lemma CleanedEntries(c: ServerConfig, s: Server, sweep: Action, sid: u64, id: u32)
    requires Consistent(c, s) && sweep.CleanUp? && Enabled(c, s, sweep) && sid in Apply(c, s, sweep).sessions
    ensures sid in s.sessions && sid in sweep.clock
    ensures var (before, after) := (s.sessions[sid].reassembly.messages,
                                    Apply(c, s, sweep).sessions[sid].reassembly.messages);
            && (id in after <==> id in before
                                 && (sweep.clock[sid] - before[id].createdAtMs) % 0x1_0000_0000
                                    <= c.reassembly.cfg.timeoutMs)
            && (id in after ==> after[id] == before[id])
  {
    hide Drained, Ends, EndingOrder, Ending;
  }

  // ----- What the listener hears -----

  /** Whether there is a listener: the one the server was created with, or the last change. */
  function Listening(listener: bool, run: seq<Action>): bool {
    if |run| == 0 then listener
    else if run[|run| - 1].SetListener? then run[|run| - 1].present
    else Listening(listener, run[..|run| - 1])
  }

  /** How long the log was at the last tick. */
  ghost function Ticked(c: ServerConfig, listener: bool, run: seq<Action>): nat
    requires Fit(c.reassembly)
  {
    if |run| == 0 then 0
    else if run[|run| - 1].Tick? then |Exec(c, listener, run).log|
    else Ticked(c, listener, run[..|run| - 1])
  }

  /** What the listener has heard: at each tick with a listener, everything logged since the tick
      before. */
  ghost function Heard(c: ServerConfig, listener: bool, run: seq<Action>): seq<ServerEvent>
    requires Fit(c.reassembly)
  {
    if |run| == 0 then []
    else
      var front := run[..|run| - 1];
      var log, since := Exec(c, listener, front).log, Ticked(c, listener, front);
      if run[|run| - 1].Tick? && Listening(listener, front) && since <= |log| then
        Heard(c, listener, front) + log[since..]
      else Heard(c, listener, front)
  }

  lemma StepListens(c: ServerConfig, s: Server, a: Action)
    requires Consistent(c, s) && Enabled(c, s, a)
    ensures Apply(c, s, a).listener == if a.SetListener? then a.present else s.listener
  {
    hide Parse, Truncated, ToFragment, Drained, AddStep, Messages, Pops, Ends;
  }

  lemma RestGrows<T>(log: seq<T>, since: nat, es: seq<T>)
    requires since <= |log|
    ensures (log + es)[since..] == log[since..] + es
  {
  }

  /** The listener hears exactly that, in order, and what is pending is what was logged since the
      last tick. */
  lemma {:induction false} ListenerHears(c: ServerConfig, listener: bool, run: seq<Action>)
    requires Fit(c.reassembly)
    ensures var s := Exec(c, listener, run);
            && s.listener == Listening(listener, run)
            && Ticked(c, listener, run) <= |s.log| && s.events == s.log[Ticked(c, listener, run)..]
            && s.delivered == Heard(c, listener, run)
  {
    if |run| > 0 {
      hide Apply, Enabled, Invariant;
      var front, a := run[..|run| - 1], run[|run| - 1];
      var s := Exec(c, listener, front);
      ListenerHears(c, listener, front);
      if Enabled(c, s, a) {
        InvariantIsConsistent(c, s);
        StepListens(c, s, a);
        StepDelivers(c, s, a);
        var t := Apply(c, s, a);
        if !a.Tick? {
          var es :| t.log == s.log + es && t.events == s.events + es;
          RestGrows(s.log, Ticked(c, listener, front), es);
        }
      } else {
        OnlyCleanupsFail(c, s, a);
      }
    } else {
      hide Invariant;
    }
  }

  lemma InvariantIsConsistent(c: ServerConfig, s: Server)
    requires Invariant(c, s)
    ensures Consistent(c, s)
  {
  }

  lemma OnlyCleanupsFail(c: ServerConfig, s: Server, a: Action)
    requires !Enabled(c, s, a)
    ensures a.CleanUp?
  {
  }
}
