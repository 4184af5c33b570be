/** What a client does to its session and its socket, and how long it says hello, by true time.
    The clock shows only its last 32 bits, but the retries come often enough for that. */
module HandshakeClock {
  import opened LittleEndian
  import opened Options
  import opened UdpPacket
  import opened Handshake
  import ReassemblyLaws

  // ----- Which steps end a session, close a socket, open one -----

  /** The client would rather start over than stay as it is. */
  predicate Reconnects(x: Client) {
    x.config.autoReconnect && !x.stopRequested && !x.manuallyClosed
  }

  predicate Fails(step: ClientStep) {
    step.ResolveFailed? || step.ReceiveError?
  }

  /** A completed handshake is given up by a new start and, with reconnecting on, by a failed
      resolve or receive; by nothing else, and then the session id is gone. */
  lemma WhatEndsASession(w: World, c: ClientId, step: ClientStep)
    requires Enabled(w, ClientActs(c, step)) && w.clients[c].handshakeComplete
    ensures var (x, v) := (w.clients[c], Apply(w, ClientActs(c, step)));
            c in v.clients &&
            if step.Resolved? || (Fails(step) && Reconnects(x)) then
              !v.clients[c].handshakeComplete && v.clients[c].sessionId == 0
            else
              v.clients[c].handshakeComplete && v.clients[c].sessionId == x.sessionId
  {
    hide Hello, IsWelcome, WelcomeId;
  }

  /** The retry came too late for the handshake under way. */
  predicate TooLate(x: Client, step: ClientStep) {
    step.Timeout? && !x.handshakeComplete
    && (step.now - x.handshakeStartMs) % 0x1_0000_0000 > x.config.handshakeTimeoutMs
  }

  /** An open socket is closed by Close and, with reconnecting on, by whatever failed: opening it
      again, a resolve, a receive, a handshake that took too long. */
  lemma WhatClosesASocket(w: World, c: ClientId, step: ClientStep)
    requires Enabled(w, ClientActs(c, step)) && w.clients[c].socket.Some?
    ensures var (x, v) := (w.clients[c], Apply(w, ClientActs(c, step)));
            && c in v.clients
            && v.clients[c].socket
               == if step.CloseClient? then Option.None
                  else if Reconnects(x) && (step.Resolved? || Fails(step) || TooLate(x, step)) then Option.None
                  else x.socket
  {
    hide Hello, IsWelcome, WelcomeId;
  }

  /** A closed one is opened by an answer of the resolver alone; a socket that could not be bound is
      closed again if the client reconnects. */
  lemma WhatOpensASocket(w: World, c: ClientId, step: ClientStep)
    requires Enabled(w, ClientActs(c, step)) && w.clients[c].socket == Option.None
    ensures var (x, v) := (w.clients[c], Apply(w, ClientActs(c, step)));
            && c in v.clients
            && v.clients[c].socket
               == match step
                  case Resolved(_, Opens(ep)) => Some(ep)
                  case Resolved(_, BindFails(ep)) => if Reconnects(x) then Option.None else Some(ep)
                  case _ => Option.None
  {
    hide Hello, IsWelcome, WelcomeId;
  }

  /** A hello goes out of an open socket at every beginning and at every retry that is in time. */
  lemma WhatSaysHello(w: World, c: ClientId, step: ClientStep)
    requires Enabled(w, ClientActs(c, step))
    ensures var (x, v) := (w.clients[c], Apply(w, ClientActs(c, step)));
            c in v.clients &&
            if step.Resolved? || (step.Timeout? && !x.stopRequested && !x.handshakeComplete && !TooLate(x, step)) then
              match v.clients[c].socket
              case Some(ep) => v.network == w.network + {ToServer(ep, Hello())}
              case None => v.network == w.network
            else v.network == w.network
  {
    hide Hello, IsWelcome, WelcomeId;
    assert w.network + {} == w.network;
  }

  // ----- Retries, by true time -----

  datatype Timed = Timed(at: nat, action: Action)

  function Actions(ts: seq<Timed>): (r: seq<Action>)
    ensures |r| == |ts|
  {
    if |ts| == 0 then [] else Actions(ts[..|ts| - 1]) + [ts[|ts| - 1].action]
  }

  function WorldAfter(ts: seq<Timed>): World {
    Exec(Actions(ts))
  }

  /** The handshake of this client begins, or is retried. */
  predicate Begins(a: Action, c: ClientId) {
    a.ClientActs? && a.id == c && a.step.Resolved?
  }

  predicate Retries(a: Action, c: ClientId) {
    a.ClientActs? && a.id == c && a.step.Timeout?
  }

  /** What the clock shows at this time is what the step read. */
  predicate ClockRead(t: Timed) {
    t.action.ClientActs? ==>
      match t.action.step
      case Resolved(now, _) => now == ReassemblyLaws.Reading(t.at)
      case Timeout(now) => now == ReassemblyLaws.Reading(t.at)
      case _ => true
  }

  function Latest(ts: seq<Timed>): nat {
    if |ts| == 0 then 0 else ts[|ts| - 1].at
  }

  /** The true time at which the client's handshake last began. */
  function Begun(ts: seq<Timed>, c: ClientId): nat {
    if |ts| == 0 then 0
    else if Begins(ts[|ts| - 1].action, c) then ts[|ts| - 1].at
    else Begun(ts[..|ts| - 1], c)
  }

  /** The true time at which its retry timer was last set. */
  function TimerSet(ts: seq<Timed>, c: ClientId): nat {
    if |ts| == 0 then 0
    else if Begins(ts[|ts| - 1].action, c) || Retries(ts[|ts| - 1].action, c) then ts[|ts| - 1].at
    else TimerSet(ts[..|ts| - 1], c)
  }

  /** The timer is set at the beginning and again with every further hello, and Close cancels it. */
  function TimerRuns(ts: seq<Timed>, c: ClientId): bool {
    if |ts| == 0 then false
    else
      var (front, a) := (ts[..|ts| - 1], ts[|ts| - 1].action);
      if Begins(a, c) then true
      else if Retries(a, c) then
        c in WorldAfter(front).clients && React(WorldAfter(front).clients[c], a.step).hello
      else if a.ClientActs? && a.id == c && a.step.CloseClient? then false
      else TimerRuns(front, c)
  }

  /** Everything happens, in the order of true time, and the client's timer goes off at most gap
      after it was set. */
  ghost predicate Paced(ts: seq<Timed>, c: ClientId, gap: nat) {
    |ts| > 0 ==>
      var (front, t) := (ts[..|ts| - 1], ts[|ts| - 1]);
      && Paced(front, c, gap)
      && ClockRead(t) && Enabled(WorldAfter(front), t.action) && Latest(front) <= t.at
      && (Retries(t.action, c) ==> TimerRuns(front, c) && t.at <= TimerSet(front, c) + gap)
  }

  /** While the timer runs, it was last set within the timeout. */
  ghost predicate Young(ts: seq<Timed>, c: ClientId) {
    TimerRuns(ts, c) ==>
      && c in WorldAfter(ts).clients
      && var x := WorldAfter(ts).clients[c];
      && x.handshakeStartMs == ReassemblyLaws.Reading(Begun(ts, c))
      && Begun(ts, c) <= TimerSet(ts, c) <= Latest(ts)
      && TimerSet(ts, c) - Begun(ts, c) <= x.config.handshakeTimeoutMs
  }

  lemma LastStep(ts: seq<Timed>, c: ClientId, gap: nat)
    requires |ts| > 0 && Paced(ts, c, gap)
    ensures var (w, a) := (WorldAfter(ts[..|ts| - 1]), ts[|ts| - 1].action);
            Enabled(w, a) && WorldAfter(ts) == Apply(w, a)
  {
    var all := Actions(ts);
    assert all[..|all| - 1] == Actions(ts[..|ts| - 1]);
    hide Apply, Enabled;
  }

  /** Only a begin sets the start, and the configuration never changes. */
  lemma StartKept(w: World, a: Action, c: ClientId)
    requires Enabled(w, a) && c in w.clients
    ensures var v := Apply(w, a);
            && c in v.clients && v.clients[c].config == w.clients[c].config
            && v.clients[c].handshakeStartMs == if Begins(a, c) then a.step.now else w.clients[c].handshakeStartMs
  {
    hide Hello, IsWelcome, WelcomeId, IsHello, IsData, Packet;
  }

  /** The 32-bit test is the test on true times. */
  lemma TestIsExact(x: Client, at: nat, since: nat)
    requires x.handshakeStartMs == ReassemblyLaws.Reading(since) && since <= at < since + 0x1_0000_0000
    ensures (ReassemblyLaws.Reading(at) - x.handshakeStartMs) % 0x1_0000_0000 == at - since
  {
    ReassemblyLaws.WrapExact(at, since);
  }

  lemma RetryDecides(w: World, c: ClientId, at: nat, since: nat)
    requires c in w.clients
    requires var x := w.clients[c];
             x.handshakeStartMs == ReassemblyLaws.Reading(since) && since <= at < since + 0x1_0000_0000
    ensures var (x, now) := (w.clients[c], ReassemblyLaws.Reading(at));
            React(x, Timeout(now)).hello <==>
              !x.stopRequested && !x.handshakeComplete && at - since <= x.config.handshakeTimeoutMs
    ensures var (x, now) := (w.clients[c], ReassemblyLaws.Reading(at));
            React(x, Timeout(now)).client
            == if Reconnects(x) && !x.handshakeComplete && at - since > x.config.handshakeTimeoutMs then
                 x.(socket := Option.None, handshakeComplete := false, sessionId := 0)
               else x
  {
    TestIsExact(w.clients[c], at, since);
  }

  /** A bound for the timeout of the client's configuration. */
  ghost predicate TimeoutWithin(ts: seq<Timed>, c: ClientId, limit: nat) {
    c in WorldAfter(ts).clients ==> WorldAfter(ts).clients[c].config.handshakeTimeoutMs <= limit
  }

  lemma {:induction false} AlwaysYoung(ts: seq<Timed>, c: ClientId, gap: nat, limit: nat)
    requires Paced(ts, c, gap) && TimeoutWithin(ts, c, limit) && limit + gap < 0x1_0000_0000
    ensures Young(ts, c)
    decreases |ts|
  {
    if |ts| > 0 {
      hide WorldAfter, Apply, Enabled, React, ReassemblyLaws.Reading;
      var (front, t) := (ts[..|ts| - 1], ts[|ts| - 1]);
      var w := WorldAfter(front);
      LastStep(ts, c, gap);
      if TimerRuns(ts, c) {
        if c in w.clients {
          StartKept(w, t.action, c);
          AlwaysYoung(front, c, gap, limit);
          if Retries(t.action, c) { RetryDecides(w, c, t.at, Begun(front, c)); }
        } else {
          NewcomerWaits(front, c, gap);
          NoActionYet(w, t.action, c);
        }
      }
    }
  }

  lemma NoActionYet(w: World, a: Action, c: ClientId)
    requires Enabled(w, a) && c !in w.clients
    ensures !Begins(a, c) && !Retries(a, c)
  {
  }

  /** A client that is not there has no timer. */
  lemma {:induction false} NewcomerWaits(ts: seq<Timed>, c: ClientId, gap: nat)
    requires Paced(ts, c, gap) && c !in WorldAfter(ts).clients
    ensures !TimerRuns(ts, c)
    decreases |ts|
  {
    if |ts| > 0 {
      hide WorldAfter, Apply, Enabled, React;
      var (front, t) := (ts[..|ts| - 1], ts[|ts| - 1]);
      LastStep(ts, c, gap);
      if c in WorldAfter(front).clients {
        StartKept(WorldAfter(front), t.action, c);
      } else {
        NewcomerWaits(front, c, gap);
        NoActionYet(WorldAfter(front), t.action, c);
      }
    }
  }

  lemma RetryEffect(w: World, c: ClientId, now: u32)
    requires Enabled(w, ClientActs(c, Timeout(now)))
    ensures var (v, r) := (Apply(w, ClientActs(c, Timeout(now))), React(w.clients[c], Timeout(now)));
            v == w.(clients := w.clients[c := r.client],
                    network := w.network + HelloFrom(r))
  {
    hide Hello;
  }

  /** With retries at most gap apart and timeout + gap below 2^32, the retry of a waiting client
      says hello and leaves the client as it is exactly while its handshake began no longer ago than
      the timeout. Later it says nothing, and a client that reconnects gives up its socket. */
  lemma RetryIsExact(ts: seq<Timed>, c: ClientId, gap: nat)
    requires |ts| > 0 && Paced(ts, c, gap) && Retries(ts[|ts| - 1].action, c)
    requires var w := WorldAfter(ts[..|ts| - 1]);
             && c in w.clients && !w.clients[c].stopRequested && !w.clients[c].handshakeComplete
             && w.clients[c].config.handshakeTimeoutMs + gap < 0x1_0000_0000
    ensures var (front, at) := (ts[..|ts| - 1], ts[|ts| - 1].at);
            var (w, v) := (WorldAfter(front), WorldAfter(ts));
            var x := w.clients[c];
            && c in v.clients && v.server == w.server
            && if at - Begun(front, c) <= x.config.handshakeTimeoutMs then
                 && v.clients[c] == x
                 && v.network == w.network + (if x.socket.Some? then {ToServer(x.socket.value, Hello())} else {})
               else
                 && v.network == w.network
                 && v.clients[c] == if Reconnects(x) then x.(socket := Option.None, sessionId := 0) else x
  {
    hide WorldAfter, Apply, Enabled, React, Hello, ReassemblyLaws.Reading;
    var (front, t) := (ts[..|ts| - 1], ts[|ts| - 1]);
    var w := WorldAfter(front);
    LastStep(ts, c, gap);
    AlwaysYoung(front, c, gap, w.clients[c].config.handshakeTimeoutMs);
    RetryDecides(w, c, t.at, Begun(front, c));
    RetryEffect(w, c, t.action.step.now);
    assert w.network + {} == w.network;
  }
}
