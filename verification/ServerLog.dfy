/** The server: its sessions, and the log of events it enqueues for the listener. One handler
    call, one cleanup and one listener tick are each one step. */
module ServerLog {
  import opened CrcSpec
  import opened LittleEndian
  import opened UdpPacket
  import opened Reassembly
  import opened ReassemblyRuns
  import opened ReassemblyLaws
  import opened EndToEnd

  const ID_SPACE: nat := 0x1_0000_0000_0000_0000

  datatype ServerEvent = Connected(sid: u64) | Message(sid: u64, data: seq<byte>) | Disconnected(sid: u64)

  datatype ServerConfig = ServerConfig(sessionTimeoutMs: u32, reassembly: Setup)

  datatype Session = Session(lastSeenMs: u32, closed: bool, reassembly: State)

  /** events waits for the next listener tick and delivered is what the listener was given. The
      last three are the story so far: all events ever enqueued, how many sessions were created,
      and what each one's reassembly buffer has been through. */
  datatype Server = Server(
    sessions: map<u64, Session>, nextSessionId: u64, events: seq<ServerEvent>, listener: bool,
    delivered: seq<ServerEvent>, log: seq<ServerEvent>, created: nat, history: map<u64, seq<Event>>)

  function Start(listener: bool): Server {
    Server(map[], 1, [], listener, [], [], 0, map[])
  }

  /** Each session's buffer is what its own history makes of an empty one, and is drained. */
  ghost predicate Consistent(c: ServerConfig, s: Server) {
    && Fit(c.reassembly)
    && forall sid | sid in s.sessions ::
         sid in s.history && Drained(c.reassembly, s.history[sid], s.sessions[sid].reassembly)
  }

  ghost predicate Drained(u: Setup, history: seq<Event>, st: State)
    requires Fit(u)
  {
    st == Run(u, history) && st.completed == []
  }

  // ----- The steps -----

  function Messages(sid: u64, ms: seq<CompletedMessage>): (r: seq<ServerEvent>)
    ensures |r| == |ms|
  {
    if |ms| == 0 then [] else Messages(sid, ms[..|ms| - 1]) + [Message(sid, ms[|ms| - 1].data)]
  }

  function Pops(n: nat): seq<Event> {
    if n == 0 then [] else Pops(n - 1) + [Pop]
  }

  function Ends(order: seq<u64>): seq<ServerEvent> {
    if |order| == 0 then [] else Ends(order[..|order| - 1]) + [Disconnected(order[|order| - 1])]
  }

  function Enqueue(s: Server, es: seq<ServerEvent>): Server {
    s.(events := s.events + es, log := s.log + es)
  }

  /** Every hello makes a session. */
  function AfterHello(s: Server, now: u32): Server {
    var sid := s.nextSessionId;
    Enqueue(s.(sessions := s.sessions[sid := Session(now, false, State(map[], []))],
               nextSessionId := (sid + 1) % ID_SPACE,
               created := s.created + 1, history := s.history[sid := []]),
            [Connected(sid)])
  }

  /** The completed queue is emptied into the log only if this fragment completed a message. */
  ghost function AfterFragment(c: ServerConfig, s: Server, seen: u32, now: u32, sid: u64, f: Fragment): Server
    requires Consistent(c, s)
  {
    if sid !in s.sessions then s
    else
      var u := c.reassembly;
      var (st, outcome) := AddStep(u.cfg, u.sort, now, s.sessions[sid].reassembly, f);
      var out := if outcome == Completed then st.completed else [];
      var left := if outcome == Completed then st.(completed := []) else st;
      Enqueue(s.(sessions := s.sessions[sid := Session(seen, s.sessions[sid].closed, left)],
                 history := s.history[sid := s.history[sid] + [Arrive(now, f)] + Pops(|out|)]),
              Messages(sid, out))
  }

  ghost function AfterReceive(c: ServerConfig, s: Server, seen: u32, now: u32, d: seq<byte>): Server
    requires Consistent(c, s)
  {
    AfterPacket(c, s, seen, now, Parse(Truncated(d)))
  }

  ghost function AfterPacket(c: ServerConfig, s: Server, seen: u32, now: u32, p: ParsedPacket): Server
    requires Consistent(c, s)
  {
    if !p.ok then s
    else if p.header.kind == HANDSHAKE_HELLO then AfterHello(s, seen)
    else if p.header.kind == DATA_FRAGMENT then AfterFragment(c, s, seen, now, p.header.sessionId, ToFragment(p))
    else s
  }

  function AfterCloseSession(s: Server, sid: u64): Server {
    if sid !in s.sessions then s else Enqueue(s.(sessions := s.sessions - {sid}), [Disconnected(sid)])
  }

  /** The application marks a session; the next cleanup ends it. */
  function AfterSessionClose(s: Server, sid: u64): Server {
    if sid !in s.sessions then s else s.(sessions := s.sessions[sid := s.sessions[sid].(closed := true)])
  }

  predicate Ending(c: ServerConfig, now: u32, e: Session) {
    e.closed || Elapsed(now, e.lastSeenMs) > c.sessionTimeoutMs
  }

  /** The sessions that end, in the order the cleanup comes across them. */
  ghost predicate EndingOrder(c: ServerConfig, s: Server, now: u32, order: seq<u64>) {
    && (forall i, j | 0 <= i < j < |order| :: order[i] != order[j])
    && (forall sid: u64 :: sid in order <==> sid in s.sessions && Ending(c, now, s.sessions[sid]))
  }

  /** Every session's buffer is cleaned at the time its turn comes; then the ended ones go. */
  function AfterCleanup(c: ServerConfig, s: Server, now: u32, clock: map<u64, u32>, order: seq<u64>): Server
    requires s.sessions.Keys <= clock.Keys && s.sessions.Keys <= s.history.Keys
  {
    Enqueue(s.(sessions := map sid | sid in s.sessions && !Ending(c, now, s.sessions[sid]) ::
                             CleanedSession(c, s.sessions[sid], clock[sid]),
               history := map sid | sid in s.history ::
                            if sid in s.sessions then s.history[sid] + [Cleanup(clock[sid])] else s.history[sid]),
            Ends(order))
  }

  function CleanedSession(c: ServerConfig, e: Session, now: u32): Session {
    e.(reassembly := CleanupStep(c.reassembly.cfg, now, e.reassembly))
  }

  function AfterTick(s: Server): Server {
    s.(events := [], delivered := if s.listener then s.delivered + s.events else s.delivered)
  }

  datatype Action =
    | Receive(seen: u32, now: u32, datagram: seq<byte>)
    | EndSession(sid: u64)
    | CloseRequest(sid: u64)
    | CleanUp(now: u32, clock: map<u64, u32>, order: seq<u64>)
    | Tick
    | SetListener(present: bool)

  ghost predicate Enabled(c: ServerConfig, s: Server, a: Action) {
    a.CleanUp? ==> s.sessions.Keys <= a.clock.Keys && EndingOrder(c, s, a.now, a.order)
  }

  ghost function Apply(c: ServerConfig, s: Server, a: Action): Server
    requires Consistent(c, s) && Enabled(c, s, a)
  {
    match a
    case Receive(seen, now, d) => AfterReceive(c, s, seen, now, d)
    case EndSession(sid) => AfterCloseSession(s, sid)
    case CloseRequest(sid) => AfterSessionClose(s, sid)
    case CleanUp(now, clock, order) => AfterCleanup(c, s, now, clock, order)
    case Tick => AfterTick(s)
    case SetListener(present) => s.(listener := present)
  }

  // ----- One session's part of the log -----

  function Of(log: seq<ServerEvent>, sid: u64): seq<ServerEvent> {
    if |log| == 0 then []
    else if log[|log| - 1].sid == sid then Of(log[..|log| - 1], sid) + [log[|log| - 1]]
    else Of(log[..|log| - 1], sid)
  }

  lemma NoMessages(sid: u64)
    ensures Messages(sid, []) == []
  {
  }

  lemma OneMessageMore(sid: u64, ms: seq<CompletedMessage>, m: CompletedMessage)
    ensures Messages(sid, ms + [m]) == Messages(sid, ms) + [Message(sid, m.data)]
  {
  }

  /** Connected, then the messages, then at most one Disconnected. */
  function Story(sid: u64, ms: seq<CompletedMessage>, ended: bool): seq<ServerEvent> {
    var told := [Connected(sid)] + Messages(sid, ms);
    if ended then told + [Disconnected(sid)] else told
  }

  lemma {:induction false} OfConcat(a: seq<ServerEvent>, b: seq<ServerEvent>, sid: u64)
    ensures Of(a + b, sid) == Of(a, sid) + Of(b, sid)
    decreases |b|
  {
    if |b| == 0 {
      assert a + b == a;
    } else {
      OfConcat(a, b[..|b| - 1], sid);
      assert (a + b)[..|a + b| - 1] == a + b[..|b| - 1];
    }
  }

  lemma {:induction false} OfMessages(who: u64, ms: seq<CompletedMessage>, sid: u64)
    ensures Of(Messages(who, ms), sid) == if who == sid then Messages(who, ms) else []
  {
    if |ms| > 0 {
      OfMessages(who, ms[..|ms| - 1], sid);
      var m := Messages(who, ms);
      assert m[..|m| - 1] == Messages(who, ms[..|ms| - 1]);
    }
  }

  lemma {:induction false} OfEnds(order: seq<u64>, sid: u64)
    requires forall i, j | 0 <= i < j < |order| :: order[i] != order[j]
    ensures Of(Ends(order), sid) == if sid in order then [Disconnected(sid)] else []
  {
    if |order| > 0 {
      var n := |order| - 1;
      OfEnds(order[..n], sid);
      assert Ends(order)[..|Ends(order)| - 1] == Ends(order[..n]);
      assert sid in order <==> sid in order[..n] || sid == order[n];
      if sid in order[..n] {
        var i :| 0 <= i < n && order[i] == sid;
        assert order[i] != order[n];
      }
    }
  }

  // ----- One session's history -----

  ghost predicate HistoryGrows(u: Setup, h: seq<Event>, more: seq<Event>, st: State, out: seq<CompletedMessage>)
    requires Fit(u)
  {
    Drained(u, h + more, st) && Deliveries(u, h + more) == Deliveries(u, h) + out
  }

  lemma FragmentCompletes(u: Setup, h: seq<Event>, now: u32, f: Fragment)
    requires Fit(u) && Run(u, h).completed == [] && AddStep(u.cfg, u.sort, now, Run(u, h), f).1 == Completed
    ensures var st := AddStep(u.cfg, u.sort, now, Run(u, h), f).0;
            HistoryGrows(u, h, [Arrive(now, f)] + Pops(|st.completed|), st.(completed := []), st.completed)
  {
    hide AddStep, Run, Deliveries, LastDelivery, Answer, Pops;
    var after := h + [Arrive(now, f)];
    OneMore(u, h, Arrive(now, f));
    CompletedQueued(u, after);
    OneMore(u, after, Pop);
    DeliveriesOne(u, h, Arrive(now, f));
    DeliveriesOne(u, after, Pop);
    assert Run(u, after) == AddStep(u.cfg, u.sort, now, Run(u, h), f).0;
    OnePop();
    assert h + ([Arrive(now, f)] + Pops(1)) == after + [Pop];
  }

  lemma OnePop()
    ensures Pops(1) == [Pop]
  {
    assert Pops(0) == [];
  }

  lemma CompletedQueued(u: Setup, events: seq<Event>)
    requires Fit(u) && Completes(u, events) && Run(u, Front(events)).completed == []
    ensures Run(u, events).completed == [LastDelivery(u, events)]
  {
    CompletedPassed(u, events);
    hide Run, Answer, FilledEntry;
  }

  lemma DeliveriesOne(u: Setup, h: seq<Event>, e: Event)
    requires Fit(u)
    ensures Deliveries(u, h + [e])
         == if Completes(u, h + [e]) then Deliveries(u, h) + [LastDelivery(u, h + [e])] else Deliveries(u, h)
  {
  }

  lemma FragmentWaits(u: Setup, h: seq<Event>, now: u32, f: Fragment)
    requires Fit(u) && Run(u, h).completed == [] && AddStep(u.cfg, u.sort, now, Run(u, h), f).1 != Completed
    ensures HistoryGrows(u, h, [Arrive(now, f)] + Pops(0), AddStep(u.cfg, u.sort, now, Run(u, h), f).0, [])
  {
    var e := Arrive(now, f);
    QueueStep(u, Run(u, h), e);
    OneMore(u, h, e);
    hide AddStep, Run, Answer;
    DeliveriesOne(u, h, e);
    hide Deliveries;
    assert h + ([e] + Pops(0)) == h + [e];
  }

  lemma CleanupWaits(u: Setup, h: seq<Event>, now: u32)
    requires Fit(u) && Run(u, h).completed == []
    ensures HistoryGrows(u, h, [Cleanup(now)], CleanupStep(u.cfg, now, Run(u, h)), [])
  {
  }

  // ----- What every run keeps -----

  /** The running number of an id, from 0. */
  function Number(sid: u64): nat {
    (sid - 1) % ID_SPACE
  }

  ghost predicate Numbered(s: Server) {
    && s.nextSessionId == (1 + s.created) % ID_SPACE
    && (s.created <= ID_SPACE ==> forall sid: u64 :: sid in s.history <==> Number(sid) < s.created)
  }

  /** A session's part of the log is its whole story, with the messages its own fragments made. */
  ghost predicate Told(c: ServerConfig, s: Server, sid: u64)
    requires Fit(c.reassembly)
  {
    Of(s.log, sid)
    == if sid in s.history then Story(sid, Deliveries(c.reassembly, s.history[sid]), sid !in s.sessions) else []
  }

  ghost predicate Invariant(c: ServerConfig, s: Server) {
    && Consistent(c, s) && Numbered(s)
    && (s.created <= ID_SPACE ==> forall sid: u64 :: Told(c, s, sid))
  }

  /** Nothing about this session changed. */
  lemma ToldStill(c: ServerConfig, s: Server, t: Server, es: seq<ServerEvent>, sid: u64)
    requires Fit(c.reassembly) && Told(c, s, sid) && t.log == s.log + es && Of(es, sid) == []
    requires sid in s.history <==> sid in t.history
    requires sid in s.history ==> s.history[sid] == t.history[sid] && (sid in s.sessions <==> sid in t.sessions)
    ensures Told(c, t, sid)
  {
    hide Deliveries;
    OfConcat(s.log, es, sid);
  }

  lemma StoryGrows(sid: u64, ms: seq<CompletedMessage>, more: seq<CompletedMessage>)
    ensures Story(sid, ms + more, false) == Story(sid, ms, false) + Messages(sid, more)
  {
    MessagesConcat(sid, ms, more);
    hide Messages;
  }

  lemma {:induction false} MessagesConcat(sid: u64, ms: seq<CompletedMessage>, more: seq<CompletedMessage>)
    ensures Messages(sid, ms + more) == Messages(sid, ms) + Messages(sid, more)
    decreases |more|
  {
    if |more| == 0 {
      assert ms + more == ms;
    } else {
      MessagesConcat(sid, ms, more[..|more| - 1]);
      assert (ms + more)[..|ms + more| - 1] == ms + more[..|more| - 1];
    }
  }

  lemma HelloKeeps(c: ServerConfig, s: Server, now: u32)
    requires Invariant(c, s)
    ensures Invariant(c, AfterHello(s, now))
  {
    var t := AfterHello(s, now);
    HelloNumbered(s, now);
    HelloConsistent(c, s, now);
    if t.created <= ID_SPACE {
      forall id: u64
        ensures Told(c, t, id)
      {
        assert Told(c, s, id);
        HelloTold(c, s, now, id);
      }
    }
    hide Consistent, Numbered, Told, AfterHello;
  }

  lemma HelloConsistent(c: ServerConfig, s: Server, now: u32)
    requires Consistent(c, s)
    ensures Consistent(c, AfterHello(s, now))
  {
  }

  lemma HelloTold(c: ServerConfig, s: Server, now: u32, id: u64)
    requires Consistent(c, s) && Told(c, s, id) && s.nextSessionId !in s.history
    ensures Told(c, AfterHello(s, now), id)
  {
  }

  lemma NumberSuccessor(n: nat)
    requires n < ID_SPACE
    ensures Number((1 + n) % ID_SPACE) == n
  {
  }

  lemma NumberInjective(a: u64, b: u64)
    requires Number(a) == Number(b)
    ensures a == b
  {
  }

  lemma HelloNumbered(s: Server, now: u32)
    requires Numbered(s)
    ensures Numbered(AfterHello(s, now))
    ensures s.created < ID_SPACE ==> s.nextSessionId !in s.history
  {
    var t, next := AfterHello(s, now), s.nextSessionId;
    assert t.nextSessionId == (1 + t.created) % ID_SPACE;
    if s.created < ID_SPACE {
      NumberSuccessor(s.created);
      hide Number;
      forall sid: u64
        ensures sid in t.history <==> Number(sid) < t.created
      {
        if Number(sid) == Number(next) { NumberInjective(sid, next); }
      }
    }
  }

  lemma FragmentKeeps(c: ServerConfig, s: Server, seen: u32, now: u32, sid: u64, f: Fragment)
    requires Invariant(c, s)
    ensures Invariant(c, AfterFragment(c, s, seen, now, sid, f))
  {
    if sid in s.sessions {
      var u, h := c.reassembly, s.history[sid];
      var t := AfterFragment(c, s, seen, now, sid, f);
      var (st, outcome) := AddStep(u.cfg, u.sort, now, s.sessions[sid].reassembly, f);
      var out := if outcome == Completed then st.completed else [];
      if outcome == Completed {
        FragmentCompletes(u, h, now, f);
      } else {
        FragmentWaits(u, h, now, f);
      }
      hide AddStep, Run, Deliveries, Pops;
      assert t.history[sid] == h + ([Arrive(now, f)] + Pops(|out|));
      SessionAdvances(c, s, t, sid, [Arrive(now, f)] + Pops(|out|), out);
    }
  }

  /** One live session's buffer moved on and what it completed went into the log. */
  lemma SessionAdvances(c: ServerConfig, s: Server, t: Server, sid: u64, more: seq<Event>, out: seq<CompletedMessage>)
    requires Invariant(c, s) && sid in s.sessions && sid in t.sessions
    requires HistoryGrows(c.reassembly, s.history[sid], more, t.sessions[sid].reassembly, out)
    requires t.sessions == s.sessions[sid := t.sessions[sid]] && t.history == s.history[sid := s.history[sid] + more]
    requires t.log == s.log + Messages(sid, out) && t.created == s.created && t.nextSessionId == s.nextSessionId
    ensures Invariant(c, t)
  {
    hide Run, Deliveries, Messages, Of, Story;
    assert Consistent(c, t) by { hide Told, Numbered; }
    if t.created <= ID_SPACE {
      forall id: u64
        ensures Told(c, t, id)
      {
        hide Consistent, Numbered;
        assert Told(c, s, id);
        OfMessages(sid, out, id);
        if id == sid {
          OfConcat(s.log, Messages(sid, out), sid);
          StoryGrows(sid, Deliveries(c.reassembly, s.history[sid]), out);
        } else {
          ToldStill(c, s, t, Messages(sid, out), id);
        }
      }
    }
  }

  lemma EndKeeps(c: ServerConfig, s: Server, sid: u64)
    requires Invariant(c, s)
    ensures Invariant(c, AfterCloseSession(s, sid))
  {
    if sid in s.sessions {
      var t := AfterCloseSession(s, sid);
      hide Run, Deliveries, Messages;
      assert Consistent(c, t) by { hide Told, Numbered; }
      if t.created <= ID_SPACE {
        forall id: u64
          ensures Told(c, t, id)
        {
          hide Numbered;
          assert Told(c, s, id);
          if id == sid {
            OfConcat(s.log, [Disconnected(sid)], sid);
          } else {
            ToldStill(c, s, t, [Disconnected(sid)], id);
          }
        }
      }
    }
  }

  lemma CleanupKeeps(c: ServerConfig, s: Server, now: u32, clock: map<u64, u32>, order: seq<u64>)
    requires Invariant(c, s) && Enabled(c, s, CleanUp(now, clock, order))
    ensures Invariant(c, AfterCleanup(c, s, now, clock, order))
  {
    var t, u := AfterCleanup(c, s, now, clock, order), c.reassembly;
    forall sid | sid in s.sessions
      ensures HistoryGrows(u, s.history[sid], [Cleanup(clock[sid])],
                           CleanupStep(u.cfg, clock[sid], s.sessions[sid].reassembly), [])
    {
      CleanupWaits(u, s.history[sid], clock[sid]);
    }
    hide Run, Deliveries, CleanupStep;
    assert Consistent(c, t) by { hide Told, Numbered; }
    if t.created <= ID_SPACE {
      forall id: u64
        ensures Told(c, t, id)
      {
        hide Consistent, Numbered, Drained;
        assert Told(c, s, id);
        CleanupTold(c, s, t, now, clock, order, id);
      }
    }
  }

  lemma CleanupTold(c: ServerConfig, s: Server, t: Server, now: u32, clock: map<u64, u32>, order: seq<u64>, id: u64)
    requires Consistent(c, s) && Enabled(c, s, CleanUp(now, clock, order)) && Told(c, s, id)
    requires t == AfterCleanup(c, s, now, clock, order)
    requires id in s.sessions ==>
      Deliveries(c.reassembly, s.history[id] + [Cleanup(clock[id])]) == Deliveries(c.reassembly, s.history[id]) + []
    ensures Told(c, t, id)
  {
    hide Run, Deliveries, CleanupStep, Drained, Messages, Ends, Of;
    OfConcat(s.log, Ends(order), id);
    OfEnds(order, id);
    if id in s.sessions {
      var ms := Deliveries(c.reassembly, s.history[id]);
      assert ms + [] == ms;
      assert t.history[id] == s.history[id] + [Cleanup(clock[id])];
    } else if id in s.history {
      assert t.history[id] == s.history[id];
    }
  }

  lemma ReceiveKeeps(c: ServerConfig, s: Server, seen: u32, now: u32, d: seq<byte>)
    requires Invariant(c, s)
    ensures Invariant(c, AfterReceive(c, s, seen, now, d))
  {
    hide Parse, Truncated, ToFragment;
    var p := Parse(Truncated(d));
    if p.ok && p.header.kind == HANDSHAKE_HELLO {
      HelloKeeps(c, s, seen);
    } else if p.ok && p.header.kind == DATA_FRAGMENT {
      FragmentKeeps(c, s, seen, now, p.header.sessionId, ToFragment(p));
    }
    hide AfterHello, AfterFragment, Consistent, Numbered, Told;
  }

  lemma InvariantKept(c: ServerConfig, s: Server, a: Action)
    requires Invariant(c, s) && Enabled(c, s, a)
    ensures Invariant(c, Apply(c, s, a))
  {
    if a.Receive? {
      ReceiveKeeps(c, s, a.seen, a.now, a.datagram);
      assert Apply(c, s, a) == AfterReceive(c, s, a.seen, a.now, a.datagram);
    } else if a.EndSession? {
      EndKeeps(c, s, a.sid);
      assert Apply(c, s, a) == AfterCloseSession(s, a.sid);
    } else if a.CleanUp? {
      CleanupKeeps(c, s, a.now, a.clock, a.order);
      assert Apply(c, s, a) == AfterCleanup(c, s, a.now, a.clock, a.order);
    } else {
      QuietKeeps(c, s, a);
    }
    hide *;
  }

  /** No event is enqueued and no buffer moves. */
  lemma QuietKeeps(c: ServerConfig, s: Server, a: Action)
    requires Invariant(c, s) && (a.CloseRequest? || a.Tick? || a.SetListener?)
    ensures Invariant(c, Apply(c, s, a))
  {
    hide Drained, Of, Story, Deliveries;
    var t := Apply(c, s, a);
    if t.created <= ID_SPACE {
      forall id: u64
        ensures Told(c, t, id)
      {
        assert Told(c, s, id);
      }
    }
  }

  /** The server after a run, with the listener it was created with; what is not possible does
      not happen. */
  ghost function Exec(c: ServerConfig, listener: bool, run: seq<Action>): (s: Server)
    requires Fit(c.reassembly)
    ensures Invariant(c, s)
  {
    if |run| == 0 then StartKeeps(c, listener); Start(listener)
    else
      var (s, a) := (Exec(c, listener, run[..|run| - 1]), run[|run| - 1]);
      if Enabled(c, s, a) then InvariantKept(c, s, a); Apply(c, s, a) else s
  }

  lemma StartKeeps(c: ServerConfig, listener: bool)
    requires Fit(c.reassembly)
    ensures Invariant(c, Start(listener))
  {
  }

  // ----- What follows for every run -----

  /** While the ids have not come round, a session's part of the log is Connected, then exactly
      the messages its reassembly buffer completed, in order, then Disconnected if it ended. */
  lemma EverySessionIsTold(c: ServerConfig, listener: bool, run: seq<Action>, sid: u64)
    requires Fit(c.reassembly) && Exec(c, listener, run).created <= ID_SPACE
    ensures var s := Exec(c, listener, run);
            Of(s.log, sid)
            == if sid in s.history then Story(sid, Deliveries(c.reassembly, s.history[sid]), sid !in s.sessions) else []
  {
    assert Told(c, Exec(c, listener, run), sid);
    hide Exec, Consistent, Numbered, Deliveries;
  }

  lemma {:induction false} InPart(log: seq<ServerEvent>, e: ServerEvent)
    ensures e in Of(log, e.sid) <==> e in log
  {
    if |log| > 0 {
      InPart(log[..|log| - 1], e);
      assert log == log[..|log| - 1] + [log[|log| - 1]];
    }
  }

  lemma {:induction false} NoConnectionInMessages(sid: u64, ms: seq<CompletedMessage>)
    ensures forall e | e in Messages(sid, ms) :: e.Message?
  {
    if |ms| > 0 { NoConnectionInMessages(sid, ms[..|ms| - 1]); }
  }

  /** The session map holds exactly the sessions announced as connected and not as disconnected. */
  lemma MapHoldsLiveSessions(c: ServerConfig, listener: bool, run: seq<Action>, sid: u64)
    requires Fit(c.reassembly) && Exec(c, listener, run).created <= ID_SPACE
    ensures var s := Exec(c, listener, run);
            sid in s.sessions <==> Connected(sid) in s.log && Disconnected(sid) !in s.log
  {
    EverySessionIsTold(c, listener, run, sid);
    var s := Exec(c, listener, run);
    hide Exec;
    InPart(s.log, Connected(sid));
    InPart(s.log, Disconnected(sid));
    if sid in s.history {
      var ms := Deliveries(c.reassembly, s.history[sid]);
      NoConnectionInMessages(sid, ms);
      hide Deliveries, Messages, Of, Run;
      if sid !in s.sessions {
        var told := Story(sid, ms, true);
        assert told[|told| - 1] == Disconnected(sid);
      } else {
        var told := Story(sid, ms, false);
        assert told[0] == Connected(sid);
      }
    }
  }

  predicate WellFormed(part: seq<ServerEvent>, sid: u64) {
    part != [] ==>
      && part[0] == Connected(sid)
      && forall i | 1 <= i < |part| :: part[i].Message? || (part[i].Disconnected? && i == |part| - 1)
  }

  function Connections(log: seq<ServerEvent>): nat {
    if |log| == 0 then 0
    else Connections(log[..|log| - 1]) + (if log[|log| - 1].Connected? then 1 else 0)
  }

  /** How often the counter has handed an id out. */
  function TimesIssued(created: nat, sid: u64): nat {
    (created + ID_SPACE - 1 - Number(sid)) / ID_SPACE
  }

  lemma {:induction false} ConnectionsConcat(a: seq<ServerEvent>, b: seq<ServerEvent>)
    ensures Connections(a + b) == Connections(a) + Connections(b)
    decreases |b|
  {
    if |b| == 0 {
      assert a + b == a;
    } else {
      ConnectionsConcat(a, b[..|b| - 1]);
      assert (a + b)[..|a + b| - 1] == a + b[..|b| - 1];
    }
  }

  lemma {:induction false} NoConnections(es: seq<ServerEvent>)
    requires forall e | e in es :: !e.Connected?
    ensures Connections(es) == 0
  {
    if |es| > 0 {
      assert forall e | e in es[..|es| - 1] :: e in es;
      NoConnections(es[..|es| - 1]);
      assert es[|es| - 1] in es;
    }
  }

  lemma {:induction false} PartOf(log: seq<ServerEvent>, sid: u64)
    ensures forall e | e in Of(log, sid) :: e in log && e.sid == sid
  {
    if |log| > 0 {
      PartOf(log[..|log| - 1], sid);
      assert forall e | e in log[..|log| - 1] :: e in log;
    }
  }

  /** What a step adds to the log: either the connection of the next id, or no connection at all. */
  ghost predicate LogGrows(s: Server, t: Server) {
    if t.created == s.created + 1 then
      t.log == s.log + [Connected(s.nextSessionId)]
    else
      t.created == s.created && exists es :: t.log == s.log + es && forall e | e in es :: !e.Connected?
  }

  lemma {:induction false} NoConnectionInEnds(order: seq<u64>)
    ensures forall e | e in Ends(order) :: e.Disconnected?
  {
    if |order| > 0 { NoConnectionInEnds(order[..|order| - 1]); }
  }

  lemma GrowsWith(s: Server, t: Server, es: seq<ServerEvent>)
    requires t.created == s.created && t.log == s.log + es && forall e | e in es :: !e.Connected?
    ensures LogGrows(s, t)
  {
  }

  lemma FragmentLog(c: ServerConfig, s: Server, seen: u32, now: u32, sid: u64, f: Fragment)
    requires Consistent(c, s)
    ensures LogGrows(s, AfterFragment(c, s, seen, now, sid, f))
  {
    if sid !in s.sessions {
      GrowsWith(s, s, []);
    } else {
      hide AddStep, Drained, Pops, Messages, LogGrows;
      var (st, outcome) := AddStep(c.reassembly.cfg, c.reassembly.sort, now, s.sessions[sid].reassembly, f);
      var out := if outcome == Completed then st.completed else [];
      NoConnectionInMessages(sid, out);
      GrowsWith(s, AfterFragment(c, s, seen, now, sid, f), Messages(sid, out));
    }
  }

  lemma EveryStepLogs(c: ServerConfig, s: Server, a: Action)
    requires Consistent(c, s) && Enabled(c, s, a)
    ensures LogGrows(s, Apply(c, s, a))
  {
    hide Parse, Truncated, ToFragment, AfterFragment, Drained;
    match a
    case Receive(seen, now, d) =>
      var p := Parse(Truncated(d));
      GrowsWith(s, s, []);
      FragmentLog(c, s, seen, now, p.header.sessionId, ToFragment(p));
    case EndSession(sid) =>
      GrowsWith(s, s, []);
      if sid in s.sessions { GrowsWith(s, Apply(c, s, a), [Disconnected(sid)]); }
    case CleanUp(now, clock, order) =>
      NoConnectionInEnds(order);
      hide LogGrows;
      GrowsWith(s, Apply(c, s, a), Ends(order));
    case _ =>
      GrowsWith(s, Apply(c, s, a), []);
  }

  lemma TimesIssuedNext(created: nat, sid: u64)
    ensures TimesIssued(created + 1, sid)
         == TimesIssued(created, sid) + (if sid == (1 + created) % ID_SPACE then 1 else 0)
  {
    var x := created + ID_SPACE - 1 - Number(sid);
    assert TimesIssued(created + 1, sid) == (x + 1) / ID_SPACE;
    Quotient(x);
    IssuedAt(created, sid);
  }

  lemma Quotient(x: nat)
    ensures (x + 1) / ID_SPACE == x / ID_SPACE + (if (x + 1) % ID_SPACE == 0 then 1 else 0)
  {
  }

  lemma IssuedAt(created: nat, sid: u64)
    ensures (created + ID_SPACE - Number(sid)) % ID_SPACE == 0 <==> sid == (1 + created) % ID_SPACE
  {
  }

  /** Each id is announced as connected once for every time the counter handed it out. */
  lemma {:induction false} TimesConnected(c: ServerConfig, listener: bool, run: seq<Action>, sid: u64)
    requires Fit(c.reassembly)
    ensures Connections(Of(Exec(c, listener, run).log, sid)) == TimesIssued(Exec(c, listener, run).created, sid)
  {
    if |run| > 0 {
      var s, a := Exec(c, listener, run[..|run| - 1]), run[|run| - 1];
      TimesConnected(c, listener, run[..|run| - 1], sid);
      if Enabled(c, s, a) {
        EveryStepLogs(c, s, a);
        ConnectedStep(s, Apply(c, s, a), sid);
      }
      hide Apply, Enabled, Of, Connections, TimesIssued, LogGrows, Consistent, Told;
    }
  }

  lemma NextIdIs(s: Server)
    requires Numbered(s)
    ensures s.nextSessionId == (1 + s.created) % ID_SPACE
  {
  }

  lemma ConnectedStep(s: Server, t: Server, sid: u64)
    requires LogGrows(s, t) && Numbered(s) && Connections(Of(s.log, sid)) == TimesIssued(s.created, sid)
    ensures Connections(Of(t.log, sid)) == TimesIssued(t.created, sid)
  {
    hide TimesIssued, Number, Numbered, Of, Connections;
    NextIdIs(s);
    if t.created == s.created + 1 {
      TimesIssuedNext(s.created, sid);
      ConnectedMore(s.log, [Connected(s.nextSessionId)], sid);
      OneConnection(s.nextSessionId, sid);
    } else {
      var es :| t.log == s.log + es && forall e | e in es :: !e.Connected?;
      ConnectedMore(s.log, es, sid);
      PartOf(es, sid);
      NoConnections(Of(es, sid));
    }
  }

  lemma OneConnection(who: u64, sid: u64)
    ensures Connections(Of([Connected(who)], sid)) == if sid == who then 1 else 0
  {
  }

  lemma ConnectedMore(log: seq<ServerEvent>, es: seq<ServerEvent>, sid: u64)
    ensures Connections(Of(log + es, sid)) == Connections(Of(log, sid)) + Connections(Of(es, sid))
  {
    OfConcat(log, es, sid);
    ConnectionsConcat(Of(log, sid), Of(es, sid));
  }

  lemma {:induction false} WellFormedOnce(part: seq<ServerEvent>, sid: u64)
    requires WellFormed(part, sid)
    ensures Connections(part) <= 1
  {
    if |part| > 0 {
      assert part == part[..1] + part[1..];
      ConnectionsConcat(part[..1], part[1..]);
      NoConnections(part[1..]);
      assert Connections(part[..1]) == 1 by { assert part[..1][..0] == []; }
    }
  }

  lemma StoryWellFormed(sid: u64, ms: seq<CompletedMessage>, ended: bool)
    ensures WellFormed(Story(sid, ms, ended), sid)
  {
    NoConnectionInMessages(sid, ms);
    hide Messages;
    var told := Story(sid, ms, ended);
    forall i | 1 <= i < |told|
      ensures told[i].Message? || (told[i].Disconnected? && i == |told| - 1)
    {
      if i <= |ms| {
        assert told[i] == Messages(sid, ms)[i - 1];
        assert told[i] in Messages(sid, ms);
      }
    }
  }

  /** The log is well formed for every session exactly while the ids have not come round: then a
      live session's id is issued again and its part of the log starts a second time. */
  lemma LogsWellFormedIff(c: ServerConfig, listener: bool, run: seq<Action>)
    requires Fit(c.reassembly)
    ensures (forall sid: u64 :: WellFormed(Of(Exec(c, listener, run).log, sid), sid))
            <==> Exec(c, listener, run).created <= ID_SPACE
  {
    var s := Exec(c, listener, run);
    if s.created <= ID_SPACE {
      forall sid: u64
        ensures WellFormed(Of(s.log, sid), sid)
      {
        EverySessionIsTold(c, listener, run, sid);
        if sid in s.history {
          StoryWellFormed(sid, Deliveries(c.reassembly, s.history[sid]), sid !in s.sessions);
        }
        hide Exec, Of, Story, WellFormed, Deliveries, Invariant;
      }
    } else {
      TimesConnected(c, listener, run, 1);
      hide Exec, Of, Invariant;
      if WellFormed(Of(s.log, 1), 1) { WellFormedOnce(Of(s.log, 1), 1); }
    }
  }

  // ----- What the listener is given -----

  /** How many events were pending at ticks that found no listener. */
  ghost function Missed(c: ServerConfig, listener: bool, run: seq<Action>): nat
    requires Fit(c.reassembly)
  {
    if |run| == 0 then 0
    else
      var s := Exec(c, listener, run[..|run| - 1]);
      Missed(c, listener, run[..|run| - 1]) + (if run[|run| - 1].Tick? && !s.listener then |s.events| else 0)
  }

  lemma StepDelivers(c: ServerConfig, s: Server, a: Action)
    requires Consistent(c, s) && Enabled(c, s, a)
    ensures var t := Apply(c, s, a);
            if a.Tick? then
              && t.log == s.log && t.events == []
              && t.delivered == if s.listener then s.delivered + s.events else s.delivered
            else
              t.delivered == s.delivered && exists es :: t.log == s.log + es && t.events == s.events + es
  {
    hide Parse, Truncated, ToFragment, Drained, AddStep, Messages, Pops, Ends;
    if a.Receive? || a.EndSession? || a.CleanUp? {
      Appended(c, s, a);
    } else {
      var t := Apply(c, s, a);
      assert s.log == s.log + [] && s.events == s.events + [];
    }
  }

  lemma Appended(c: ServerConfig, s: Server, a: Action)
    requires Consistent(c, s) && Enabled(c, s, a) && (a.Receive? || a.EndSession? || a.CleanUp?)
    ensures Apply(c, s, a).delivered == s.delivered
    ensures exists es :: Apply(c, s, a).log == s.log + es && Apply(c, s, a).events == s.events + es
  {
    hide Parse, Truncated, ToFragment, Drained, AddStep, Messages, Pops, Ends;
    assert s.log == s.log + [] && s.events == s.events + [];
  }

  ghost predicate Balanced(s: Server, missed: nat) {
    && |s.log| == |s.delivered| + |s.events| + missed
    && (s.delivered + s.events == s.log <==> missed == 0)
  }

  lemma StepBalances(c: ServerConfig, s: Server, a: Action, missed: nat)
    requires Consistent(c, s) && Enabled(c, s, a) && Balanced(s, missed)
    ensures Balanced(Apply(c, s, a), missed + if a.Tick? && !s.listener then |s.events| else 0)
  {
    StepDelivers(c, s, a);
    hide *;
    var t := Apply(c, s, a);
    if a.Tick? {
      TickBalances(s, t, missed);
    } else {
      var es :| t.log == s.log + es && t.events == s.events + es;
      GrowthBalances(s, t, missed, es);
    }
  }

  lemma TickBalances(s: Server, t: Server, missed: nat)
    requires Balanced(s, missed) && t.log == s.log && t.events == []
    requires t.delivered == if s.listener then s.delivered + s.events else s.delivered
    ensures Balanced(t, missed + if !s.listener then |s.events| else 0)
  {
  }

  lemma GrowthBalances(s: Server, t: Server, missed: nat, es: seq<ServerEvent>)
    requires Balanced(s, missed) && t.delivered == s.delivered && t.log == s.log + es && t.events == s.events + es
    ensures Balanced(t, missed)
  {
  }

  /** Every event is delivered, pending or missed; when none was missed, what was delivered
      followed by what is pending is the log, in order. */
  lemma {:induction false} ListenerGetsTheLog(c: ServerConfig, listener: bool, run: seq<Action>)
    requires Fit(c.reassembly)
    ensures var s := Exec(c, listener, run);
            && |s.log| == |s.delivered| + |s.events| + Missed(c, listener, run)
            && (s.delivered + s.events == s.log <==> Missed(c, listener, run) == 0)
  {
    if |run| > 0 {
      var s, a := Exec(c, listener, run[..|run| - 1]), run[|run| - 1];
      ListenerGetsTheLog(c, listener, run[..|run| - 1]);
      if Enabled(c, s, a) {
        StepBalances(c, s, a, Missed(c, listener, run[..|run| - 1]));
      } else {
        assert !a.Tick?;
      }
      hide Apply, Invariant, Enabled;
    }
  }

  // ----- When a session expires -----

  /** The cleanup's verdict on a session, by true times of which the clock shows the last 32 bits:
      right when the reading is not older than the session's last datagram, and the complement of
      the age when it is. */
  lemma ExpiryVerdict(c: ServerConfig, at: nat, since: nat, e: Session)
    requires e.lastSeenMs == since % 0x1_0000_0000 && !e.closed
    requires at - since < 0x1_0000_0000 && since - at < 0x1_0000_0000
    ensures Ending(c, at % 0x1_0000_0000, e)
            <==> (if since <= at then at - since else 0x1_0000_0000 - (since - at)) > c.sessionTimeoutMs
  {
  }

}
