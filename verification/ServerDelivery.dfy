/** From one SendInternal call to the server's event log: the fragments pass the datagram format,
    the session map and the session's reassembly buffer. */
module ServerDelivery {
  import opened CrcSpec
  import opened LittleEndian
  import opened UdpPacket
  import opened UdpSend
  import opened Reassembly
  import opened ReassemblyRuns
  import opened ReassemblyLaws
  import opened EndToEnd
  import opened ServerLog

  /** The fragments of the message that the run's datagrams are. */
  function Arrived(t: Transfer, run: seq<Action>): set<nat>
    requires t.m > 0
  {
    if |run| == 0 then {}
    else
      Arrived(t, run[..|run| - 1]) + New(t, run[|run| - 1])
  }

  function New(t: Transfer, a: Action): set<nat>
    requires t.m > 0
  {
    if a.Receive? then PieceOf(t, a.datagram) else {}
  }

  /** A cleanup at which neither the session nor the message's entry is too old. */
  predicate Spares(c: ServerConfig, t: Transfer, s: Server, now: u32, clock: map<u64, u32>) {
    t.sessionId in s.sessions && t.sessionId in clock ==>
      && !Ending(c, now, s.sessions[t.sessionId])
      && var messages := s.sessions[t.sessionId].reassembly.messages;
         (t.messageId in messages ==> !Expired(c.reassembly.cfg, clock[t.sessionId], messages[t.messageId]))
  }

  /** Anything but the end of the session, a cleanup that removes it or the message's entry, and
      datagrams that only pretend to belong to the message. */
  predicate Harmless(c: ServerConfig, t: Transfer, s: Server, a: Action)
    requires t.m > 0
  {
    match a
    case Receive(_, now, d) => PieceOf(t, d) != {} || Foreign(t, Arrival(now, d))
    case EndSession(sid) => sid != t.sessionId
    case CleanUp(now, clock, _) => Spares(c, t, s, now, clock)
    case _ => true
  }

  /** The session is live and its buffer holds exactly these fragments of the message. */
  ghost predicate Underway(c: ServerConfig, t: Transfer, s: Server, got: set<nat>)
    requires t.Fits(c.reassembly.cfg)
  {
    t.sessionId in s.sessions && Progress(c.reassembly.cfg, t, s.sessions[t.sessionId].reassembly, got)
  }

  // ----- One action -----

  lemma HandledAs(sessionId: u64, now: u32, d: seq<byte>, f: Fragment)
    requires Handle(sessionId, now, d) == [Arrive(now, f)]
    ensures var p := Parse(Truncated(d));
            p.ok && p.header.kind == DATA_FRAGMENT && p.header.sessionId == sessionId && ToFragment(p) == f
  {
    hide Parse, ToFragment, Truncated;
  }

  lemma PieceDispatched(c: ServerConfig, s: Server, t: Transfer, seen: u32, now: u32, d: seq<byte>, i: nat)
    requires Consistent(c, s) && t.Fits(c.reassembly.cfg) && i in PieceOf(t, d)
    ensures AfterReceive(c, s, seen, now, d) == AfterFragment(c, s, seen, now, t.sessionId, t.Piece(i))
  {
    hide PieceDatagram, Handle, AfterFragment, Parse, Truncated, ToFragment, AfterHello;
    OnePiece(c.reassembly.cfg, t, now, d, i);
    HandledAs(t.sessionId, now, d, t.Piece(i));
  }

  /** What a fragment for a live session does to the log and to that session's buffer. */
  lemma FragmentOutcome(c: ServerConfig, s: Server, seen: u32, now: u32, sid: u64, f: Fragment)
    requires Consistent(c, s) && sid in s.sessions
    ensures var (st, o) := AddStep(c.reassembly.cfg, c.reassembly.sort, now, s.sessions[sid].reassembly, f);
            var r := AfterFragment(c, s, seen, now, sid, f);
            && sid in r.sessions && r.sessions[sid].reassembly.messages == st.messages
            && r.log == s.log + Messages(sid, if o == Completed then st.completed else [])
  {
  }

  lemma ProgressOfMessages(cfg: Config, t: Transfer, st: State, after: State, got: set<nat>)
    requires t.Fits(cfg) && Progress(cfg, t, st, got) && after.messages == st.messages
    ensures Progress(cfg, t, after, got)
  {
  }

  lemma PieceStored(c: ServerConfig, s: Server, t: Transfer, got: set<nat>, seen: u32, now: u32, i: nat)
    requires Consistent(c, s) && Fit(c.reassembly) && t.Fits(c.reassembly.cfg)
    requires i < t.Count() && t.sessionId in s.sessions
    requires var st := s.sessions[t.sessionId].reassembly;
             StateInvariant(st) && st.completed == [] && Progress(c.reassembly.cfg, t, st, got)
    ensures var r := AfterFragment(c, s, seen, now, t.sessionId, t.Piece(i));
            if i !in got && Full(t, got + {i}) then r.log == s.log + [Message(t.sessionId, t.payload)]
            else t.sessionId in r.sessions && r.log == s.log
                 && Progress(c.reassembly.cfg, t, r.sessions[t.sessionId].reassembly, got + {i})
  {
    hide AfterFragment, AddStep, Progress, Full, Transfer.Piece, Transfer.Count, Consistent, Messages, StateInvariant;
    var u, st := c.reassembly, s.sessions[t.sessionId].reassembly;
    var r := AfterFragment(c, s, seen, now, t.sessionId, t.Piece(i));
    PieceStep(u, t, st, got, now, i);
    FragmentOutcome(c, s, seen, now, t.sessionId, t.Piece(i));
    NoMessages(t.sessionId);
    var after := AddStep(u.cfg, u.sort, now, st, t.Piece(i)).0;
    if i in got {
      assert got + {i} == got;
      ProgressOfMessages(u.cfg, t, after, r.sessions[t.sessionId].reassembly, got);
    } else if Full(t, got + {i}) {
      var m := CompletedMessage(t.messageId, t.payload);
      OneMessageMore(t.sessionId, [], m);
      assert after.completed == [] + [m] == [m];
    } else {
      ProgressOfMessages(u.cfg, t, after, r.sessions[t.sessionId].reassembly, got + {i});
    }
  }

  lemma BufferSound(c: ServerConfig, s: Server, sid: u64)
    requires Consistent(c, s) && sid in s.sessions
    ensures Fit(c.reassembly)
    ensures StateInvariant(s.sessions[sid].reassembly) && s.sessions[sid].reassembly.completed == []
  {
  }

  /** A fragment that leaves others missing leaves the log alone; the one that was missing puts
      the message there. */
  lemma PieceReceived(c: ServerConfig, s: Server, t: Transfer, got: set<nat>, seen: u32, now: u32, d: seq<byte>, i: nat)
    requires Consistent(c, s) && t.Fits(c.reassembly.cfg) && Underway(c, t, s, got) && i in PieceOf(t, d)
    ensures var r := AfterReceive(c, s, seen, now, d);
            if i !in got && Full(t, got + {i}) then r.log == s.log + [Message(t.sessionId, t.payload)]
            else Underway(c, t, r, got + {i}) && r.log == s.log
  {
    hide AfterReceive, AfterFragment, Consistent, Progress, Full, Transfer.Piece, StateInvariant, PieceDatagram;
    BufferSound(c, s, t.sessionId);
    PieceDispatched(c, s, t, seen, now, d, i);
    PieceStored(c, s, t, got, seen, now, i);
  }

  lemma ProgressKept(cfg: Config, t: Transfer, st: State, after: State, got: set<nat>)
    requires t.Fits(cfg) && Progress(cfg, t, st, got) && SameEntry(st, after, t.messageId)
    ensures Progress(cfg, t, after, got)
  {
  }

  lemma OtherFragment(c: ServerConfig, s: Server, t: Transfer, got: set<nat>, seen: u32, now: u32, sid: u64,
                      f: Fragment)
    requires Consistent(c, s) && t.Fits(c.reassembly.cfg) && Underway(c, t, s, got)
    requires sid != t.sessionId || f.messageId != t.messageId
    ensures Underway(c, t, AfterFragment(c, s, seen, now, sid, f), got)
  {
    hide AddStep, Progress, Run, Pops, Messages, Transfer.Fits;
    if sid == t.sessionId {
      var st := s.sessions[sid].reassembly;
      var after := AddStep(c.reassembly.cfg, c.reassembly.sort, now, st, f).0;
      OthersLeaveEntry(c.reassembly, st, Arrive(now, f), t.messageId);
      ProgressKept(c.reassembly.cfg, t, st, after, got);
      ProgressKept(c.reassembly.cfg, t, st, after.(completed := []), got);
    }
  }

  lemma ForeignReceived(c: ServerConfig, s: Server, t: Transfer, got: set<nat>, seen: u32, now: u32, d: seq<byte>)
    requires Invariant(c, s) && t.Fits(c.reassembly.cfg) && Underway(c, t, s, got)
    requires Foreign(t, Arrival(now, d)) && AfterReceive(c, s, seen, now, d).created <= ID_SPACE
    ensures Underway(c, t, AfterReceive(c, s, seen, now, d), got)
  {
    hide Progress, Transfer.Fits, Parse, Truncated, ToFragment, AfterFragment, Told, Drained;
    var p := Parse(Truncated(d));
    if p.ok && p.header.kind == HANDSHAKE_HELLO {
      HelloNumbered(s, seen);
    } else if p.ok && p.header.kind == DATA_FRAGMENT {
      assert p.header.sessionId == t.sessionId ==> Handle(t.sessionId, now, d) == [Arrive(now, ToFragment(p))];
      assert p.header.sessionId == t.sessionId ==> Arrive(now, ToFragment(p)) in Handle(t.sessionId, now, d);
      OtherFragment(c, s, t, got, seen, now, p.header.sessionId, ToFragment(p));
    }
  }

  lemma CleanupSpares(c: ServerConfig, s: Server, t: Transfer, got: set<nat>, now: u32, clock: map<u64, u32>,
                      order: seq<u64>)
    requires Consistent(c, s) && t.Fits(c.reassembly.cfg) && Underway(c, t, s, got)
    requires Spares(c, t, s, now, clock) && s.sessions.Keys <= clock.Keys
    ensures Underway(c, t, AfterCleanup(c, s, now, clock, order), got)
  {
    hide Progress, Transfer.Fits, Drained, Ending, Ends, Expired;
    var st := s.sessions[t.sessionId].reassembly;
    ProgressKept(c.reassembly.cfg, t, st, CleanupStep(c.reassembly.cfg, clock[t.sessionId], st), got);
  }

  lemma QuietAction(c: ServerConfig, s: Server, t: Transfer, got: set<nat>, a: Action)
    requires Consistent(c, s) && t.Fits(c.reassembly.cfg) && Underway(c, t, s, got)
    requires Harmless(c, t, s, a) && !a.Receive? && Enabled(c, s, a)
    ensures Underway(c, t, Apply(c, s, a), got)
  {
    hide Progress, Transfer.Fits, PieceOf, Foreign, Drained, AfterCleanup, Spares, EndingOrder;
    if a.CleanUp? { CleanupSpares(c, s, t, got, a.now, a.clock, a.order); }
  }

  // ----- Whole runs -----

  /** Every action of the run is harmless in the state it finds. */
  ghost predicate AllHarmless(c: ServerConfig, listener: bool, past: seq<Action>, run: seq<Action>, t: Transfer)
    requires Fit(c.reassembly) && t.m > 0
  {
    forall n | 0 <= n < |run| :: Harmless(c, t, Exec(c, listener, past + run[..n]), run[n])
  }

  lemma HarmlessFront(c: ServerConfig, listener: bool, past: seq<Action>, run: seq<Action>, t: Transfer)
    requires Fit(c.reassembly) && t.m > 0 && |run| > 0 && AllHarmless(c, listener, past, run, t)
    ensures AllHarmless(c, listener, past, run[..|run| - 1], t)
    ensures Harmless(c, t, Exec(c, listener, past + run[..|run| - 1]), run[|run| - 1])
  {
    hide Exec, Harmless;
    var front := run[..|run| - 1];
    forall n | 0 <= n < |front| ensures Harmless(c, t, Exec(c, listener, past + front[..n]), front[n]) {
      assert front[..n] == run[..n];
    }
  }

  lemma ExecUnfold(c: ServerConfig, listener: bool, run: seq<Action>)
    requires Fit(c.reassembly) && |run| > 0
    ensures var s := Exec(c, listener, run[..|run| - 1]);
            Exec(c, listener, run) == (if Enabled(c, s, run[|run| - 1]) then Apply(c, s, run[|run| - 1]) else s)
  {
    hide Apply, Enabled, Invariant;
  }

  lemma ExecLast(c: ServerConfig, listener: bool, past: seq<Action>, run: seq<Action>)
    requires Fit(c.reassembly) && |run| > 0
    ensures var s := Exec(c, listener, past + run[..|run| - 1]);
            && Exec(c, listener, past + run)
               == (if Enabled(c, s, run[|run| - 1]) then Apply(c, s, run[|run| - 1]) else s)
            && s.created <= Exec(c, listener, past + run).created
  {
    hide Apply, Enabled, Exec, Told, Numbered, Drained;
    assert (past + run)[..|past + run| - 1] == past + run[..|run| - 1];
    ExecUnfold(c, listener, past + run);
    var s, a := Exec(c, listener, past + run[..|run| - 1]), run[|run| - 1];
    if Enabled(c, s, a) { EveryStepLogs(c, s, a); }
  }

  /** While a fragment is missing, the session's buffer holds exactly the fragments that came. */
  lemma {:induction false} FragmentsGather(c: ServerConfig, listener: bool, past: seq<Action>, run: seq<Action>,
                                           t: Transfer)
    requires Fit(c.reassembly) && t.Fits(c.reassembly.cfg) && t.m > 0
    requires Underway(c, t, Exec(c, listener, past), {})
    requires AllHarmless(c, listener, past, run, t) && !Full(t, Arrived(t, run))
    requires Exec(c, listener, past + run).created <= ID_SPACE
    ensures Underway(c, t, Exec(c, listener, past + run), Arrived(t, run))
    decreases |run|
  {
    hide Exec, Transfer.Fits, Harmless, Enabled, Apply, Underway, Full, Invariant, PieceOf, AllHarmless;
    if |run| == 0 {
      assert past + run == past;
    } else {
      var front, a := run[..|run| - 1], run[|run| - 1];
      ExecLast(c, listener, past, run);
      HarmlessFront(c, listener, past, run, t);
      StillMissing(t, Arrived(t, front), Arrived(t, run));
      FragmentsGather(c, listener, past, front, t);
      ActionGathers(c, Exec(c, listener, past + front), t, Arrived(t, front), a);
    }
  }

  lemma StillMissing(t: Transfer, fewer: set<nat>, more: set<nat>)
    requires t.m > 0 && fewer <= more && !Full(t, more)
    ensures !Full(t, fewer)
  {
  }

  lemma PieceGathers(c: ServerConfig, s: Server, t: Transfer, got: set<nat>, seen: u32, now: u32, d: seq<byte>)
    requires Invariant(c, s) && t.Fits(c.reassembly.cfg) && Underway(c, t, s, got) && t.m > 0
    requires PieceOf(t, d) != {} && !Full(t, got + PieceOf(t, d))
    ensures var r := AfterReceive(c, s, seen, now, d);
            Underway(c, t, r, got + PieceOf(t, d)) && r.log == s.log
  {
    var i :| i in PieceOf(t, d);
    hide Transfer.Fits, Full, Underway, AfterReceive, Told, Numbered, Drained, PieceOf;
    OnePiece(c.reassembly.cfg, t, now, d, i);
    PieceReceived(c, s, t, got, seen, now, d, i);
  }

  lemma ActionGathers(c: ServerConfig, s: Server, t: Transfer, got: set<nat>, a: Action)
    requires Invariant(c, s) && t.Fits(c.reassembly.cfg) && Underway(c, t, s, got) && t.m > 0 && Harmless(c, t, s, a)
    requires Enabled(c, s, a) ==> Apply(c, s, a).created <= ID_SPACE
    requires !Full(t, got + New(t, a))
    ensures Underway(c, t, if Enabled(c, s, a) then Apply(c, s, a) else s, got + New(t, a))
    ensures New(t, a) != {} ==> Enabled(c, s, a) && Apply(c, s, a).log == s.log
  {
    hide Transfer.Fits, Full, Underway, AfterReceive, AfterCleanup, Told, Numbered, Drained, PieceOf, Foreign;
    assert got + {} == got;
    if a.Receive? {
      if PieceOf(t, a.datagram) != {} {
        PieceGathers(c, s, t, got, a.seen, a.now, a.datagram);
      } else {
        ForeignReceived(c, s, t, got, a.seen, a.now, a.datagram);
      }
    } else if Enabled(c, s, a) {
      QuietAction(c, s, t, got, a);
    }
  }

  /** The datagram that completes is a fragment, and the one that was missing. */
  lemma TheMissing(c: ServerConfig, t: Transfer, front: seq<Action>, a: Action) returns (i: nat)
    requires t.Fits(c.reassembly.cfg) && t.m > 0
    requires Full(t, Arrived(t, front) + New(t, a)) && !Full(t, Arrived(t, front))
    ensures a.Receive? && i in PieceOf(t, a.datagram) && i !in Arrived(t, front) && Full(t, Arrived(t, front) + {i})
  {
    hide PieceDatagram, Transfer.Fits;
    i :| i < t.Count() && i !in Arrived(t, front);
    assert i in Arrived(t, front) + New(t, a);
    OnePiece(c.reassembly.cfg, t, a.now, a.datagram, i);
  }

  lemma LastPieceLogs(c: ServerConfig, s: Server, t: Transfer, got: set<nat>, a: Action, i: nat)
    requires Invariant(c, s) && t.Fits(c.reassembly.cfg) && Underway(c, t, s, got) && t.m > 0
    requires a.Receive? && i in PieceOf(t, a.datagram) && i !in got && Full(t, got + {i})
    ensures Enabled(c, s, a) && Apply(c, s, a).log == s.log + [Message(t.sessionId, t.payload)]
  {
    hide Transfer.Fits, Underway, Full, PieceOf, AfterReceive, Numbered, Told, Drained;
    PieceReceived(c, s, t, got, a.seen, a.now, a.datagram, i);
  }

  lemma LastAction(c: ServerConfig, listener: bool, past: seq<Action>, run: seq<Action>, t: Transfer)
    requires Fit(c.reassembly) && t.Fits(c.reassembly.cfg) && |run| > 0 && t.m > 0
    requires Underway(c, t, Exec(c, listener, past), {})
    requires AllHarmless(c, listener, past, run, t) && Exec(c, listener, past + run).created <= ID_SPACE
    requires !Full(t, Arrived(t, run[..|run| - 1])) && New(t, run[|run| - 1]) != {}
    ensures Exec(c, listener, past + run).log
         == Exec(c, listener, past + run[..|run| - 1]).log
            + if Full(t, Arrived(t, run)) then [Message(t.sessionId, t.payload)] else []
  {
    hide Exec, Transfer.Fits, Harmless, Underway, Full, PieceOf, Apply, Enabled, Invariant, Consistent, AllHarmless;
    var front, a := run[..|run| - 1], run[|run| - 1];
    assert Arrived(t, run) == Arrived(t, front) + New(t, a);
    hide Arrived, New;
    ExecLast(c, listener, past, run);
    HarmlessFront(c, listener, past, run, t);
    FragmentsGather(c, listener, past, front, t);
    if Full(t, Arrived(t, run)) {
      var i := TheMissing(c, t, front, a);
      LastPieceLogs(c, Exec(c, listener, past + front), t, Arrived(t, front), a, i);
    } else {
      ActionGathers(c, Exec(c, listener, past + front), t, Arrived(t, front), a);
    }
  }

  lemma FullIsNew(t: Transfer, run: seq<Action>)
    requires |run| > 0 && t.m > 0 && Full(t, Arrived(t, run)) && !Full(t, Arrived(t, run[..|run| - 1]))
    ensures New(t, run[|run| - 1]) != {}
  {
    hide PieceOf;
    var k: nat :| k < t.Count() && k !in Arrived(t, run[..|run| - 1]);
    assert k in Arrived(t, run);
  }

  /** The whole way: a message whose id is not open in a live session is announced by the very
      datagram that brings its last missing fragment, with exactly the sender's bytes. */
  lemma MessageReachesTheLog(c: ServerConfig, listener: bool, past: seq<Action>, run: seq<Action>, t: Transfer)
    requires Fit(c.reassembly) && t.Fits(c.reassembly.cfg) && |run| > 0
    requires var s := Exec(c, listener, past);
             t.sessionId in s.sessions && t.messageId !in s.sessions[t.sessionId].reassembly.messages
    requires AllHarmless(c, listener, past, run, t) && Exec(c, listener, past + run).created <= ID_SPACE
    requires Full(t, Arrived(t, run)) && !Full(t, Arrived(t, run[..|run| - 1]))
    ensures Exec(c, listener, past + run).log
         == Exec(c, listener, past + run[..|run| - 1]).log + [Message(t.sessionId, t.payload)]
  {
    hide Exec, Harmless, Full, PieceOf, Arrived, New;
    FullIsNew(t, run);
    LastAction(c, listener, past, run, t);
  }

  /** The earlier fragments, in any order, repeated and mixed with anything else, leave the log as
      it was. */
  lemma EarlierFragmentsAreQuiet(c: ServerConfig, listener: bool, past: seq<Action>, run: seq<Action>, t: Transfer)
    requires Fit(c.reassembly) && t.Fits(c.reassembly.cfg) && |run| > 0
    requires var s := Exec(c, listener, past);
             t.sessionId in s.sessions && t.messageId !in s.sessions[t.sessionId].reassembly.messages
    requires AllHarmless(c, listener, past, run, t) && Exec(c, listener, past + run).created <= ID_SPACE
    requires New(t, run[|run| - 1]) != {} && !Full(t, Arrived(t, run))
    ensures Exec(c, listener, past + run).log == Exec(c, listener, past + run[..|run| - 1]).log
  {
    StillMissing(t, Arrived(t, run[..|run| - 1]), Arrived(t, run));
    hide Exec, Harmless, Full, PieceOf, Arrived, New;
    LastAction(c, listener, past, run, t);
  }
}
