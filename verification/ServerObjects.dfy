/** The server and its sessions as objects, proved against the steps of ServerLog. */
module ServerObjects {
  import opened CrcSpec
  import opened LittleEndian
  import opened UdpPacket
  import opened Coverage
  import opened Reassembly
  import opened ReassemblyRuns
  import opened EndToEnd
  import opened ServerLog
  import Handshake

  class SessionImpl {
    var lastSeenMs: u32
    var closed: bool
    const reassembly: ReassemblyBuffer

    ghost function Contents(): Session
      reads this, reassembly
    {
      Session(lastSeenMs, closed, reassembly.Contents())
    }

    ghost predicate Valid(u: Setup)
      reads reassembly
    {
      reassembly.Valid() && reassembly.config == u.cfg && reassembly.sort == u.sort
    }

    constructor (now: u32, u: Setup)
      requires Fit(u)
      ensures Valid(u) && fresh(reassembly)
      ensures Contents() == Session(now, false, State(map[], []))
    {
      reassembly := new ReassemblyBuffer(u.cfg, u.sort);
      lastSeenMs := now;
      closed := false;
    }

    /** Says whether the fragment completed a message. */
    method OnDatagram(u: Setup, seen: u32, now: u32, f: Fragment) returns (outcome: Outcome)
      requires Valid(u)
      modifies this`lastSeenMs, reassembly
      ensures Valid(u)
      ensures var r := AddStep(u.cfg, u.sort, now, old(Contents()).reassembly, f);
              Contents() == Session(seen, old(Contents()).closed, r.0) && outcome == r.1
    {
      hide StateInvariant, Sorts, Screen, StoreStep;
      lastSeenMs := seen;
      outcome := reassembly.AddFragment(now, f);
    }

    method Close()
      modifies this`closed
      ensures closed
    {
      closed := true;
    }

    method TickCleanup(u: Setup, now: u32, timeoutMs: u32, clock: u32)
      requires Valid(u)
      modifies this`closed, reassembly
      ensures Valid(u)
      ensures var e := old(Contents());
              Contents() == Session(e.lastSeenMs, e.closed || Elapsed(now, e.lastSeenMs) > timeoutMs,
                                    CleanupStep(u.cfg, clock, e.reassembly))
    {
      reassembly.TickCleanup(clock);
      if Elapsed(now, lastSeenMs) > timeoutMs {
        closed := true;
      }
    }
  }

  class ServerImpl {
    const config: ServerConfig
    var sessions: map<u64, SessionImpl>
    var nextSessionId: u64
    var events: seq<ServerEvent>
    var listener: bool
    /** What the listener has been called with. */
    var delivered: seq<ServerEvent>
    ghost var log: seq<ServerEvent>
    ghost var created: nat
    ghost var history: map<u64, seq<Event>>

    /** The sessions and their buffers. */
    ghost var objects: set<object>

    ghost function View(): map<u64, Session>
      requires Owned()
      reads this`sessions, this`objects, objects
    {
      map sid | sid in sessions :: sessions[sid].Contents()
    }

    ghost function Contents(): Server
      requires Owned()
      reads this, objects
    {
      Server(View(), nextSessionId, events, listener, delivered, log, created, history)
    }

    /** The sessions are separate objects with separate buffers. */
    ghost predicate Owned()
      reads this`sessions, this`objects
    {
      && this !in objects
      && (forall sid | sid in sessions :: sessions[sid] in objects && sessions[sid].reassembly in objects)
      && (forall a, b | a in sessions && b in sessions && a != b ::
            sessions[a] != sessions[b] && sessions[a].reassembly != sessions[b].reassembly)
    }

    ghost predicate SessionsValid()
      requires Owned()
      reads this`sessions, this`objects, objects
    {
      forall sid | sid in sessions :: sessions[sid].Valid(config.reassembly)
    }

    ghost predicate Valid()
      reads this, objects
    {
      Fit(config.reassembly) && Owned() && SessionsValid() && Invariant(config, Contents())
    }

    constructor (config: ServerConfig, listener: bool)
      requires Fit(config.reassembly)
      ensures Valid() && fresh(objects) && Contents() == Start(listener) && this.config == config
    {
      this.config := config;
      sessions, nextSessionId, events, this.listener, delivered := map[], 1, [], listener, [];
      log, created, history, objects := [], 0, map[], {};
      new;
      StartKeeps(config, listener);
      assert Contents() == Start(listener);
    }

    method EnqueueEvent(e: ServerEvent)
      modifies this`events, this`log
      ensures events == old(events) + [e] && log == old(log) + [e]
    {
      events := events + [e];
      log := log + [e];
    }

    method CreateSession(now: u32) returns (sid: u64)
      requires Valid()
      modifies this
      ensures Valid() && fresh(objects - old(objects))
      ensures Contents() == AfterHello(old(Contents()), now) && sid == old(nextSessionId)
    {
      hide Invariant, Fit, View, SessionsValid;
      HelloKeeps(config, Contents(), now);
      sid := nextSessionId;
      nextSessionId := (nextSessionId + 1) % 0x1_0000_0000_0000_0000;
      created, history := created + 1, history[sid := []];
      AddSession(sid, now);
      EnqueueEvent(Connected(sid));
    }

    method AddSession(sid: u64, now: u32)
      requires Owned() && SessionsValid() && Fit(config.reassembly)
      modifies this`sessions, this`objects
      ensures Owned() && SessionsValid() && fresh(objects - old(objects))
      ensures View() == old(View())[sid := Session(now, false, State(map[], []))]
    {
      hide SessionImpl.Valid, SessionImpl.Contents, Fit;
      var session := new SessionImpl(now, config.reassembly);
      Insert(sid, session);
    }

    method Insert(sid: u64, session: SessionImpl)
      requires Owned() && SessionsValid() && session.Valid(config.reassembly)
      requires {session, session.reassembly} !! objects
      modifies this`sessions, this`objects
      ensures Owned() && SessionsValid() && objects == old(objects) + {session, session.reassembly}
      ensures View() == old(View())[sid := session.Contents()]
    {
      hide SessionImpl.Valid, SessionImpl.Contents;
      sessions := sessions[sid := session];
      objects := objects + {session, session.reassembly};
    }

    method HandleHandshakeHello(now: u32) returns (welcome: seq<byte>)
      requires Valid()
      modifies this
      ensures Valid() && fresh(objects - old(objects))
      ensures Contents() == AfterHello(old(Contents()), now)
      ensures welcome == Packet(Handshake.WelcomeHeader(old(nextSessionId)), [])
    {
      hide Invariant, Packet, AfterHello;
      var sid := CreateSession(now);
      welcome := BuildPacket(DEFAULT_HEADER.(kind := HANDSHAKE_WELCOME, sessionId := sid), []);
    }

    /** A hello is answered with one welcome for a session that is there now; nothing else is
        answered. The replies go to the sender. */
    method OnReceive(seen: u32, now: u32, d: seq<byte>) returns (reply: seq<seq<byte>>)
      requires Valid()
      modifies this, objects
      ensures Valid() && fresh(objects - old(objects))
      ensures Contents() == AfterReceive(config, old(Contents()), seen, now, d)
      ensures Handshake.IsHello(d) ==>
                && |reply| == 1 && reply[0] == Packet(Handshake.WelcomeHeader(old(nextSessionId)), [])
                && Handshake.IsWelcome(reply[0]) && Handshake.WelcomeId(reply[0]) == old(nextSessionId)
                && old(nextSessionId) in sessions
      ensures !Handshake.IsHello(d) ==> reply == []
    {
      hide Parse, AfterPacket, Valid, Contents, Packet, Truncated, Handshake.IsWelcome, Handshake.WelcomeId;
      var packet := ParsePacket(Truncated(d));
      reply := Dispatch(seen, now, packet);
      if |reply| == 1 { Handshake.WelcomeIsWelcome(old(nextSessionId)); }
    }

    method Dispatch(seen: u32, now: u32, packet: ParsedPacket) returns (reply: seq<seq<byte>>)
      requires Valid()
      modifies this, objects
      ensures Valid() && fresh(objects - old(objects))
      ensures Contents() == AfterPacket(config, old(Contents()), seen, now, packet)
      ensures if packet.ok && packet.header.kind == HANDSHAKE_HELLO then
                reply == [Packet(Handshake.WelcomeHeader(old(nextSessionId)), [])] && old(nextSessionId) in sessions
              else reply == []
    {
      hide Invariant, View, SessionsValid, Owned, AfterHello, AfterFragment, ToFragment, Packet;
      reply := [];
      if !packet.ok {
        return;
      }
      if packet.header.kind == HANDSHAKE_HELLO {
        var welcome := HandleHandshakeHello(seen);
        reply := [welcome];
        HelloConnects(old(Contents()), seen);
      } else if packet.header.kind == DATA_FRAGMENT {
        HandleDataFragment(seen, now, packet.header.sessionId, ToFragment(packet));
      }
    }

    lemma HelloConnects(s: Server, now: u32)
      requires Valid() && Contents() == AfterHello(s, now)
      ensures s.nextSessionId in sessions
    {
      assert s.nextSessionId in View();
    }

    ghost predicate BufferSound(sid: u64)
      requires Owned() && sid in sessions
      reads this`sessions, this`objects, objects
    {
      StateInvariant(View()[sid].reassembly)
    }

    lemma Live(sid: u64)
      requires Valid()
      ensures Consistent(config, Contents()) && sessions.Keys <= history.Keys
      ensures sid in View() <==> sid in sessions
      ensures sid in sessions ==> BufferSound(sid) && sid in history
    {
    }

    method HandleDataFragment(seen: u32, now: u32, sid: u64, f: Fragment)
      requires Valid()
      modifies this, objects
      ensures Valid() && objects == old(objects)
      ensures Contents() == AfterFragment(config, old(Contents()), seen, now, sid, f)
    {
      hide Invariant, Consistent, Fit, SessionsValid, View, AddStep, Messages, Pops, BufferSound;
      Live(sid);
      FragmentKeeps(config, Contents(), seen, now, sid, f);
      if sid !in sessions {
        return;
      }
      ghost var h := history[sid];
      var outcome := PassOn(seen, now, sid, f);
      ghost var out := if outcome == Completed then View()[sid].reassembly.completed else [];
      if outcome == Completed {
        EmitCompletedMessages(sid);
      }
      history := history[sid := h + [Arrive(now, f)] + Pops(|out|)];
      assert Owned();
      assert SessionsValid();
      assert Contents() == AfterFragment(config, old(Contents()), seen, now, sid, f);
      assert Invariant(config, Contents());
    }

    /** When only one session and its buffer have changed, only that session looks different. */
    twostate lemma OneTouched(sid: u64)
      requires old(Owned()) && old(SessionsValid()) && sid in sessions
      requires sessions == old(sessions) && objects == old(objects)
      requires forall o | o in objects && o != sessions[sid] && o != sessions[sid].reassembly :: unchanged(o)
      requires sessions[sid].Valid(config.reassembly)
      ensures Owned() && SessionsValid() && View() == old(View())[sid := sessions[sid].Contents()]
    {
      hide SessionImpl.Valid, SessionImpl.Contents;
      forall id | id in sessions && id != sid
        ensures sessions[id].Contents() == old(sessions[id].Contents()) && sessions[id].Valid(config.reassembly)
      {
        assert unchanged(sessions[id]) && unchanged(sessions[id].reassembly);
      }
    }

    method PassOn(seen: u32, now: u32, sid: u64, f: Fragment) returns (outcome: Outcome)
      requires Owned() && SessionsValid() && Fit(config.reassembly) && sid in sessions && BufferSound(sid)
      modifies objects
      ensures Owned() && SessionsValid()
      ensures var (u, e) := (config.reassembly, old(View()[sid]));
              var r := AddStep(u.cfg, u.sort, now, e.reassembly, f);
              outcome == r.1 && View() == old(View())[sid := Session(seen, e.closed, r.0)]
    {
      hide StateInvariant, AddStep, Fit, SessionImpl.Valid, SessionImpl.Contents;
      var session: SessionImpl := sessions[sid];
      outcome := session.OnDatagram(config.reassembly, seen, now, f);
      OneTouched(sid);
    }

    method EmitCompletedMessages(sid: u64)
      requires Owned() && SessionsValid() && sid in sessions
      modifies objects, this`events, this`log
      ensures Owned() && SessionsValid()
      ensures var e := old(View()[sid]);
              && View() == old(View())[sid := e.(reassembly := e.reassembly.(completed := []))]
              && events == old(events) + Messages(sid, e.reassembly.completed)
              && log == old(log) + Messages(sid, e.reassembly.completed)
    {
      hide Sorts, StateInvariant, Messages;
      Drain(sid, sessions[sid].reassembly);
      OneTouched(sid);
    }

    method Drain(sid: u64, buffer: ReassemblyBuffer)
      requires buffer.Valid() && this as object != buffer
      modifies buffer`completed, this`events, this`log
      ensures buffer.Valid() && buffer.completed == []
      ensures events == old(events) + Messages(sid, old(buffer.completed))
      ensures log == old(log) + Messages(sid, old(buffer.completed))
    {
      hide ReassemblyBuffer.Valid, Messages;
      ghost var gone: seq<CompletedMessage> := [];
      NoMessages(sid);
      var more := buffer.HasCompleted();
      while more
        invariant gone + buffer.completed == old(buffer.completed)
        invariant more <==> buffer.completed != []
        invariant buffer.Valid()
        invariant events == old(events) + Messages(sid, gone) && log == old(log) + Messages(sid, gone)
        decreases |buffer.completed|
      {
        var message := buffer.PopCompleted();
        OneMessageMore(sid, gone, message);
        gone := gone + [message];
        EnqueueEvent(Message(sid, message.data));
        more := buffer.HasCompleted();
      }
      assert gone == old(buffer.completed);
    }

    method CloseSession(sid: u64)
      requires Valid()
      modifies this
      ensures Valid() && objects == old(objects) && Contents() == AfterCloseSession(old(Contents()), sid)
    {
      hide Invariant, SessionsValid;
      EndKeeps(config, Contents(), sid);
      if sid !in sessions {
        return;
      }
      Forget(sid);
      EnqueueEvent(Disconnected(sid));
      assert Contents() == AfterCloseSession(old(Contents()), sid);
      assert Owned() && SessionsValid();
    }

    method Forget(sid: u64)
      requires Owned() && SessionsValid()
      modifies this`sessions
      ensures Owned() && SessionsValid() && sessions == old(sessions) - {sid} && View() == old(View()) - {sid}
    {
      hide SessionImpl.Valid, SessionImpl.Contents;
      sessions := sessions - {sid};
    }

    /** The application closes the session behind a handle it was given. */
    method RequestClose(sid: u64)
      requires Valid()
      modifies objects
      ensures Valid() && Contents() == AfterSessionClose(old(Contents()), sid)
    {
      hide Invariant, AfterReceive, AfterCleanup;
      QuietKeeps(config, Contents(), CloseRequest(sid));
      if sid in sessions {
        sessions[sid].Close();
        OneTouched(sid);
      }
      assert Contents() == AfterSessionClose(old(Contents()), sid);
    }

    method SetupListener(present: bool)
      requires Valid()
      modifies this`listener
      ensures Valid() && Contents() == old(Contents()).(listener := present)
    {
      hide Invariant, AfterReceive, AfterCleanup, SessionsValid, View;
      QuietKeeps(config, Contents(), SetListener(present));
      listener := present;
      assert Contents() == old(Contents()).(listener := present);
    }

    method ProcessTick()
      requires Valid()
      modifies this`events, this`delivered
      ensures Valid() && Contents() == AfterTick(old(Contents()))
    {
      hide Invariant, AfterReceive, AfterCleanup, SessionsValid, View;
      QuietKeeps(config, Contents(), Tick);
      var local := events;
      events := [];
      if listener {
        var k := 0;
        while k < |local|
          invariant k <= |local|
          invariant delivered == old(delivered) + local[..k] && events == []
        {
          delivered := delivered + [local[k]];
          k := k + 1;
        }
        assert local[..k] == local;
      }
      assert Contents() == AfterTick(old(Contents()));
    }

    /** Erases while iterating, in whatever order the map gives; the Disconnected events follow. */
    method TickSessionsCleanup(now: u32, clock: map<u64, u32>) returns (closedSessions: seq<u64>)
      requires Valid() && sessions.Keys <= clock.Keys
      modifies this, objects
      ensures Valid() && objects == old(objects)
      ensures Enabled(config, old(Contents()), CleanUp(now, clock, closedSessions))
      ensures Contents() == AfterCleanup(config, old(Contents()), now, clock, closedSessions)
    {
      hide Invariant, SessionsValid, View, Ends, Ending, CleanedSession, Swept, EndedFirst, EndingOrder;
      ViewKeys();
      Live(0);
      closedSessions := SweepSessions(now, clock);
      EnqueueEnds(closedSessions);
      history := map sid | sid in history ::
                   if sid in old(View()) then history[sid] + [Cleanup(clock[sid])] else history[sid];
      AllSwept(config, old(Contents()), now, clock, View(), closedSessions);
      CleanupKeeps(config, old(Contents()), now, clock, closedSessions);
      assert Contents() == AfterCleanup(config, old(Contents()), now, clock, closedSessions);
    }

    method EnqueueEnds(order: seq<u64>)
      modifies this`events, this`log
      ensures events == old(events) + Ends(order) && log == old(log) + Ends(order)
    {
      var k := 0;
      while k < |order|
        invariant k <= |order|
        invariant events == old(events) + Ends(order[..k]) && log == old(log) + Ends(order[..k])
      {
        assert order[..k + 1][..k] == order[..k];
        EnqueueEvent(Disconnected(order[k]));
        k := k + 1;
      }
      assert order[..k] == order;
    }

    method CleanOne(sid: u64, now: u32, clock: u32)
      requires Owned() && SessionsValid() && sid in sessions
      modifies objects
      ensures Owned() && SessionsValid() && objects == old(objects) && sessions == old(sessions)
      ensures View() == old(View())[sid := Cleaned(now, clock, old(View())[sid])]
    {
      hide CleanupStep, StateInvariant, Elapsed;
      var session: SessionImpl := sessions[sid];
      session.TickCleanup(config.reassembly, now, config.sessionTimeoutMs, clock);
      OneTouched(sid);
    }

    ghost function Cleaned(now: u32, clock: u32, e: Session): Session {
      Session(e.lastSeenMs, e.closed || Elapsed(now, e.lastSeenMs) > config.sessionTimeoutMs,
              CleanupStep(config.reassembly.cfg, clock, e.reassembly))
    }

    lemma CleanedIs(now: u32, clock: u32, e: Session)
      ensures Cleaned(now, clock, e).closed <==> Ending(config, now, e)
      ensures !Ending(config, now, e) ==> Cleaned(now, clock, e) == CleanedSession(config, e, clock)
    {
      hide CleanupStep, Elapsed;
    }

    method SweepOne(sid: u64, now: u32, clock: u32) returns (gone: bool)
      requires Owned() && SessionsValid() && sid in sessions && sid in View()
      modifies this`sessions, objects
      ensures Owned() && SessionsValid() && objects == old(objects) && gone == Ending(config, now, old(View())[sid])
      ensures View() == if gone then old(View()) - {sid}
                        else old(View())[sid := CleanedSession(config, old(View())[sid], clock)]
    {
      hide Cleaned, Ending, CleanedSession, SessionsValid, View, Owned;
      ghost var before := View();
      CleanedIs(now, clock, before[sid]);
      CleanOne(sid, now, clock);
      ViewKeys();
      gone := IsTimedOut(sid);
      if gone {
        Forget(sid);
        assert View() == before - {sid};
      }
    }

    method IsTimedOut(sid: u64) returns (closed: bool)
      requires Owned() && sid in sessions
      ensures sid in View() && closed == View()[sid].closed
    {
      closed := sessions[sid].closed;
    }

    method SweepSessions(now: u32, clock: map<u64, u32>) returns (order: seq<u64>)
      requires Owned() && SessionsValid() && sessions.Keys <= clock.Keys
      modifies this`sessions, objects
      ensures Owned() && SessionsValid() && objects == old(objects) && old(View()).Keys <= clock.Keys
      ensures EndedFirst(config, now, old(View()), {}, order)
      ensures Swept(config, now, clock, old(View()), {}, View())
    {
      hide Ending, CleanedSession, View, Owned, SessionsValid, Swept, EndedFirst;
      ghost var before := View();
      ViewKeys();
      NothingSwept(config, now, clock, before);
      var left := sessions.Keys;
      order := [];
      while left != {}
        invariant Owned() && SessionsValid() && objects == old(objects)
        invariant left <= before.Keys <= clock.Keys && left <= View().Keys
        invariant Swept(config, now, clock, before, left, View())
        invariant EndedFirst(config, now, before, left, order)
        decreases left
      {
        var sid :| sid in left;
        ViewKeys();
        ghost var view := View();
        var gone := SweepOne(sid, now, clock[sid]);
        OneMoreSwept(config, now, clock, before, left, view, View(), order, sid);
        left := left - {sid};
        if gone {
          order := order + [sid];
        }
      }
    }

    lemma ViewKeys()
      requires Owned()
      ensures View().Keys == sessions.Keys
    {
    }
  }

  /** Before its turn a session is as it was; after it, it is cleaned and kept, or gone. */
  ghost predicate Swept(c: ServerConfig, now: u32, clock: map<u64, u32>, before: map<u64, Session>, left: set<u64>,
                        after: map<u64, Session>)
    requires before.Keys <= clock.Keys
  {
    && after.Keys <= before.Keys
    && forall sid | sid in before ::
         if sid in left then sid in after && after[sid] == before[sid]
         else if Ending(c, now, before[sid]) then sid !in after
         else sid in after && after[sid] == CleanedSession(c, before[sid], clock[sid])
  }

  /** The list has, once each, the sessions looked at so far that end. */
  ghost predicate EndedFirst(c: ServerConfig, now: u32, before: map<u64, Session>, left: set<u64>, order: seq<u64>) {
    && (forall i, j | 0 <= i < j < |order| :: order[i] != order[j])
    && (forall sid: u64 :: sid in order <==> sid in before && sid !in left && Ending(c, now, before[sid]))
  }

  lemma NothingSwept(c: ServerConfig, now: u32, clock: map<u64, u32>, before: map<u64, Session>)
    requires before.Keys <= clock.Keys
    ensures Swept(c, now, clock, before, before.Keys, before) && EndedFirst(c, now, before, before.Keys, [])
  {
  }

  lemma OneMoreSwept(c: ServerConfig, now: u32, clock: map<u64, u32>, before: map<u64, Session>, left: set<u64>,
                     view: map<u64, Session>, after: map<u64, Session>, order: seq<u64>, sid: u64)
    requires before.Keys <= clock.Keys && sid in left && left <= before.Keys
    requires Swept(c, now, clock, before, left, view) && EndedFirst(c, now, before, left, order)
    requires sid in view
    requires after == if Ending(c, now, view[sid]) then view - {sid}
                      else view[sid := CleanedSession(c, view[sid], clock[sid])]
    ensures view[sid] == before[sid] && left - {sid} <= after.Keys
    ensures Swept(c, now, clock, before, left - {sid}, after)
    ensures EndedFirst(c, now, before, left - {sid}, if Ending(c, now, before[sid]) then order + [sid] else order)
  {
  }

  /** Nothing left to look at: that is the whole cleanup. */
  lemma AllSwept(c: ServerConfig, s: Server, now: u32, clock: map<u64, u32>, view: map<u64, Session>, order: seq<u64>)
    requires s.sessions.Keys <= clock.Keys && s.sessions.Keys <= s.history.Keys
    requires Swept(c, now, clock, s.sessions, {}, view) && EndedFirst(c, now, s.sessions, {}, order)
    ensures Enabled(c, s, CleanUp(now, clock, order))
    ensures AfterCleanup(c, s, now, clock, order).sessions == view
  {
  }
}
