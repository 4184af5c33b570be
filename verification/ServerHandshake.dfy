/** The handshake with the server that has sessions, buffers and a log: what it does with the
    network's datagrams is a run of the handshake system, so what holds there holds here. */
module ServerHandshake {
  import opened CrcSpec
  import opened LittleEndian
  import opened UdpPacket
  import opened ReassemblyRuns
  import opened Options
  import Handshake
  import ServerLog

  type Wire = Handshake.Wire
  type ClientId = Handshake.ClientId

  /** Clients, the network, and the server with all it keeps. */
  datatype Joint = Joint(
    clients: map<ClientId, Handshake.Client>, network: set<Wire>, owner: map<Handshake.Endpoint, ClientId>,
    server: ServerLog.Server)

  datatype Deed =
    | Outside(outer: Handshake.Action)                   // a client acts, data is sent, a datagram is lost
    | Delivered(wire: Wire, seen: u32, now: u32)         // the server receives a datagram
    | Inside(inner: ServerLog.Action)                    // the server's application, cleanup and tick

  function World(j: Joint, server: Handshake.Server): Handshake.World {
    Handshake.World(j.clients, server, j.network, j.owner)
  }

  const NO_SERVER := Handshake.Server(1, [])

  function First(listener: bool): Joint {
    Joint(map[], {}, map[], ServerLog.Start(listener))
  }

  ghost predicate Possible(c: ServerLog.ServerConfig, j: Joint, deed: Deed) {
    match deed
    case Outside(a) => !a.ServerReceives? && Handshake.Enabled(World(j, NO_SERVER), a)
    case Delivered(wire, _, _) => wire in j.network && wire.ToServer?
    case Inside(a) => !a.Receive? && ServerLog.Enabled(c, j.server, a)
  }

  /** The replies of the receive handler, back to the sender. */
  function Replies(s: ServerLog.Server, wire: Wire): set<Wire>
    requires wire.ToServer?
  {
    if Handshake.IsHello(wire.bytes) then
      {Handshake.ToClient(wire.sender, Packet(Handshake.WelcomeHeader(s.nextSessionId), []))}
    else {}
  }

  ghost function After(c: ServerLog.ServerConfig, j: Joint, deed: Deed): Joint
    requires ServerLog.Invariant(c, j.server) && Possible(c, j, deed)
  {
    match deed
    case Outside(a) =>
      var w := Handshake.Apply(World(j, NO_SERVER), a);
      Joint(w.clients, w.network, w.owner, j.server)
    case Delivered(wire, seen, now) =>
      j.(network := j.network + Replies(j.server, wire),
         server := ServerLog.AfterReceive(c, j.server, seen, now, wire.bytes))
    case Inside(a) => j.(server := ServerLog.Apply(c, j.server, a))
  }

  lemma AfterKeeps(c: ServerLog.ServerConfig, j: Joint, deed: Deed)
    requires ServerLog.Invariant(c, j.server) && Possible(c, j, deed)
    ensures ServerLog.Invariant(c, After(c, j, deed).server)
  {
    hide ServerLog.Invariant, ServerLog.AfterReceive, ServerLog.Apply, ServerLog.Enabled, Handshake.Apply,
         Handshake.Enabled;
    match deed
    case Outside(_) =>
    case Delivered(wire, seen, now) => ServerLog.ReceiveKeeps(c, j.server, seen, now, wire.bytes);
    case Inside(a) => ServerLog.InvariantKept(c, j.server, a);
  }

  /** The joint system after a run; what is not possible does not happen. */
  ghost function Exec(c: ServerLog.ServerConfig, listener: bool, run: seq<Deed>): (j: Joint)
    requires Fit(c.reassembly)
    ensures ServerLog.Invariant(c, j.server)
  {
    if |run| == 0 then ServerLog.StartKeeps(c, listener); First(listener)
    else
      var (j, deed) := (Exec(c, listener, run[..|run| - 1]), run[|run| - 1]);
      if Possible(c, j, deed) then AfterKeeps(c, j, deed); After(c, j, deed) else j
  }

  // ----- The same run, as the handshake system sees it -----

  /** What the server does inside is not seen; what was not possible is left out. */
  ghost function Shadow(c: ServerLog.ServerConfig, listener: bool, run: seq<Deed>): seq<Handshake.Action>
    requires Fit(c.reassembly)
  {
    if |run| == 0 then []
    else
      var (front, deed) := (run[..|run| - 1], run[|run| - 1]);
      var before := Shadow(c, listener, front);
      if !Possible(c, Exec(c, listener, front), deed) then before
      else match deed
        case Outside(a) => before + [a]
        case Delivered(wire, _, _) => before + [Handshake.ServerReceives(wire)]
        case Inside(_) => before
  }

  /** Both systems show the same outside, and every id that was issued was announced. */
  ghost predicate Alike(j: Joint, w: Handshake.World) {
    && World(j, w.server) == w
    && w.server.nextSessionId == j.server.nextSessionId
    && |w.server.issued| == j.server.created
    && forall i | i in w.server.issued :: ServerLog.Connected(i.id) in j.server.log
  }

  lemma NoServerNeeded(w: Handshake.World, server: Handshake.Server, a: Handshake.Action)
    requires !a.ServerReceives?
    ensures Handshake.Enabled(w, a) <==> Handshake.Enabled(w.(server := server), a)
    ensures Handshake.Enabled(w, a) ==>
              Handshake.Apply(w.(server := server), a) == Handshake.Apply(w, a).(server := server)
    ensures Handshake.Enabled(w, a) ==> Handshake.Apply(w, a).server == w.server
  {
    hide Handshake.React, Handshake.IsData, Handshake.Hello;
  }

  lemma OutsideAlike(c: ServerLog.ServerConfig, j: Joint, w: Handshake.World, a: Handshake.Action)
    requires ServerLog.Invariant(c, j.server) && Alike(j, w) && Possible(c, j, Outside(a))
    ensures Handshake.Enabled(w, a) && Alike(After(c, j, Outside(a)), Handshake.Apply(w, a))
  {
    hide ServerLog.Invariant, Handshake.Apply, Handshake.Enabled;
    NoServerNeeded(w, NO_SERVER, a);
    assert w.(server := NO_SERVER) == World(j, NO_SERVER);
  }

  lemma LogOnlyGrows(c: ServerLog.ServerConfig, s: ServerLog.Server, a: ServerLog.Action, e: ServerLog.ServerEvent)
    requires ServerLog.Invariant(c, s) && ServerLog.Enabled(c, s, a) && e in s.log
    ensures e in ServerLog.Apply(c, s, a).log
  {
    ServerLog.EveryStepLogs(c, s, a);
    hide ServerLog.Invariant, ServerLog.Enabled, ServerLog.Apply;
  }

  /** Nothing but a hello makes a session. */
  lemma OnlyHellosCreate(c: ServerLog.ServerConfig, s: ServerLog.Server, a: ServerLog.Action)
    requires ServerLog.Invariant(c, s) && ServerLog.Enabled(c, s, a)
    requires a.Receive? ==> !Handshake.IsHello(a.datagram)
    ensures var t := ServerLog.Apply(c, s, a);
            t.created == s.created && t.nextSessionId == s.nextSessionId
  {
    hide Parse, Truncated, ServerLog.Told, ServerLog.Drained, ServerLog.Messages, ServerLog.Ends, ServerLog.Pops;
  }

  lemma InsideAlike(c: ServerLog.ServerConfig, j: Joint, w: Handshake.World, a: ServerLog.Action)
    requires ServerLog.Invariant(c, j.server) && Alike(j, w) && Possible(c, j, Inside(a))
    ensures Alike(After(c, j, Inside(a)), w)
  {
    OnlyHellosCreate(c, j.server, a);
    hide ServerLog.Invariant, ServerLog.Enabled, ServerLog.Apply;
    forall i | i in w.server.issued
      ensures ServerLog.Connected(i.id) in ServerLog.Apply(c, j.server, a).log
    {
      LogOnlyGrows(c, j.server, a, ServerLog.Connected(i.id));
    }
  }

  lemma HelloIs(c: ServerLog.ServerConfig, s: ServerLog.Server, seen: u32, now: u32, d: seq<byte>)
    requires ServerLog.Invariant(c, s) && Handshake.IsHello(d)
    ensures ServerLog.AfterReceive(c, s, seen, now, d) == ServerLog.AfterHello(s, seen)
  {
    hide Parse, Truncated, ServerLog.Told, ServerLog.Drained, ServerLog.AfterFragment;
  }

  lemma SystemHello(w: Handshake.World, sender: Handshake.Endpoint)
    ensures var (v, id) := (Handshake.AfterHello(w, sender), w.server.nextSessionId);
            && v == w.(server := v.server,
                       network := w.network + {Handshake.ToClient(sender, Packet(Handshake.WelcomeHeader(id), []))})
            && v.server.nextSessionId == (id + 1) % ServerLog.ID_SPACE
            && v.server.issued == w.server.issued + [Handshake.Issue(id, sender)]
  {
    hide Packet, Handshake.WelcomeHeader;
  }

  lemma ServerHello(s: ServerLog.Server, seen: u32)
    ensures var (t, id) := (ServerLog.AfterHello(s, seen), s.nextSessionId);
            && t.nextSessionId == (id + 1) % ServerLog.ID_SPACE && t.created == s.created + 1
            && t.log == s.log + [ServerLog.Connected(id)] && id in t.sessions
  {
  }

  lemma OneMoreAnnounced(issued: seq<Handshake.Issue>, log: seq<ServerLog.ServerEvent>, id: u64, ep: Handshake.Endpoint)
    requires forall i | i in issued :: ServerLog.Connected(i.id) in log
    ensures forall i | i in issued + [Handshake.Issue(id, ep)] ::
              ServerLog.Connected(i.id) in log + [ServerLog.Connected(id)]
  {
  }

  lemma HelloAlike(c: ServerLog.ServerConfig, j: Joint, w: Handshake.World, wire: Wire, seen: u32, now: u32)
    requires ServerLog.Invariant(c, j.server) && Alike(j, w) && Possible(c, j, Delivered(wire, seen, now))
    requires Handshake.IsHello(wire.bytes)
    ensures Alike(After(c, j, Delivered(wire, seen, now)), Handshake.AfterHello(w, wire.sender))
  {
    hide Packet, Handshake.WelcomeHeader, ServerLog.Invariant, ServerLog.AfterReceive, ServerLog.AfterHello,
         Handshake.IsHello, Handshake.AfterHello;
    HelloIs(c, j.server, seen, now, wire.bytes);
    SystemHello(w, wire.sender);
    ServerHello(j.server, seen);
    OneMoreAnnounced(w.server.issued, j.server.log, j.server.nextSessionId, wire.sender);
  }

  lemma SystemReceives(w: Handshake.World, wire: Wire)
    requires wire in w.network && wire.ToServer?
    ensures Handshake.Enabled(w, Handshake.ServerReceives(wire))
    ensures Handshake.Apply(w, Handshake.ServerReceives(wire))
         == if Handshake.IsHello(wire.bytes) then Handshake.AfterHello(w, wire.sender) else w
  {
    hide Handshake.IsHello, Handshake.AfterHello;
  }

  lemma SameNetwork(j: Joint, w: Handshake.World, wire: Wire)
    requires Alike(j, w) && wire in j.network
    ensures wire in w.network
  {
  }

  lemma DeliveredAlike(c: ServerLog.ServerConfig, j: Joint, w: Handshake.World, wire: Wire, seen: u32, now: u32)
    requires ServerLog.Invariant(c, j.server) && Alike(j, w) && Possible(c, j, Delivered(wire, seen, now))
    ensures Handshake.Enabled(w, Handshake.ServerReceives(wire))
    ensures Alike(After(c, j, Delivered(wire, seen, now)), Handshake.Apply(w, Handshake.ServerReceives(wire)))
  {
    hide ServerLog.Invariant, After, Alike, Handshake.IsHello, Handshake.AfterHello, Handshake.Apply, Handshake.Enabled;
    SameNetwork(j, w, wire);
    SystemReceives(w, wire);
    if Handshake.IsHello(wire.bytes) {
      HelloAlike(c, j, w, wire, seen, now);
    } else {
      InsideOfReceive(c, j, w, wire, seen, now);
    }
  }

  lemma InsideOfReceive(c: ServerLog.ServerConfig, j: Joint, w: Handshake.World, wire: Wire, seen: u32, now: u32)
    requires ServerLog.Invariant(c, j.server) && Alike(j, w) && Possible(c, j, Delivered(wire, seen, now))
    requires !Handshake.IsHello(wire.bytes)
    ensures Alike(After(c, j, Delivered(wire, seen, now)), w)
  {
    var a := ServerLog.Receive(seen, now, wire.bytes);
    OnlyHellosCreate(c, j.server, a);
    assert ServerLog.Enabled(c, j.server, a);
    assert ServerLog.Apply(c, j.server, a) == ServerLog.AfterReceive(c, j.server, seen, now, wire.bytes);
    hide ServerLog.Invariant, ServerLog.Enabled, ServerLog.Apply, ServerLog.AfterReceive, Handshake.IsHello;
    forall i | i in w.server.issued
      ensures ServerLog.Connected(i.id) in ServerLog.Apply(c, j.server, a).log
    {
      LogOnlyGrows(c, j.server, a, ServerLog.Connected(i.id));
    }
    assert j.network + {} == j.network;
  }

  /** Every run of the joint system is, from outside, a run of the handshake system. */
  lemma {:induction false} Refines(c: ServerLog.ServerConfig, listener: bool, run: seq<Deed>)
    requires Fit(c.reassembly)
    ensures Alike(Exec(c, listener, run), Handshake.Exec(Shadow(c, listener, run)))
  {
    if |run| == 0 {
      hide ServerLog.Invariant;
    } else {
      hide Possible, After, Alike, Handshake.Enabled, Handshake.Apply, Handshake.Exec, ServerLog.Invariant;
      var (front, deed) := (run[..|run| - 1], run[|run| - 1]);
      var j, before := Exec(c, listener, front), Shadow(c, listener, front);
      var w := Handshake.Exec(before);
      Refines(c, listener, front);
      if Possible(c, j, deed) {
        match deed
        case Outside(a) =>
          OutsideAlike(c, j, w, a);
          Handshake.ExecSnoc(before, a);
        case Delivered(wire, seen, now) =>
          DeliveredAlike(c, j, w, wire, seen, now);
          Handshake.ExecSnoc(before, Handshake.ServerReceives(wire));
        case Inside(a) =>
          InsideAlike(c, j, w, a);
      }
    }
  }

  // ----- What follows for this server -----

  /** A client that completed its handshake holds an id that the server announced as connected. */
  lemma CompletedIsConnected(c: ServerLog.ServerConfig, listener: bool, run: seq<Deed>, client: ClientId)
    requires Fit(c.reassembly)
    requires var j := Exec(c, listener, run); client in j.clients && j.clients[client].handshakeComplete
    ensures var j := Exec(c, listener, run);
            ServerLog.Connected(j.clients[client].sessionId) in j.server.log
  {
    Refines(c, listener, run);
    var shadow := Shadow(c, listener, run);
    hide Exec, Shadow, Handshake.Exec;
    Handshake.CompletedHoldsIssued(shadow, client);
  }

  /** No two clients that completed their handshakes hold the same session. */
  lemma ClientsAreApart(c: ServerLog.ServerConfig, listener: bool, run: seq<Deed>, a: ClientId, b: ClientId)
    requires Fit(c.reassembly)
    requires var j := Exec(c, listener, run);
             && a in j.clients && j.clients[a].handshakeComplete && b in j.clients && j.clients[b].handshakeComplete
             && j.clients[a].sessionId == j.clients[b].sessionId && j.server.created <= ServerLog.ID_SPACE
    ensures a == b
  {
    Refines(c, listener, run);
    var shadow := Shadow(c, listener, run);
    hide Exec, Shadow, Handshake.Exec;
    Handshake.SessionsAreExclusive(shadow, a, b);
  }

  lemma ExecOne(c: ServerLog.ServerConfig, listener: bool, run: seq<Deed>, deed: Deed)
    requires Fit(c.reassembly) && Possible(c, Exec(c, listener, run), deed)
    ensures Exec(c, listener, run + [deed]) == After(c, Exec(c, listener, run), deed)
  {
    hide Possible, After, ServerLog.Invariant;
    assert (run + [deed])[..|run|] == run;
  }

  /** From every reachable state, a waiting client whose hello this server receives gets its
      session from the answer, and the session is there. */
  lemma HandshakeCompletesHere(c: ServerLog.ServerConfig, listener: bool, run: seq<Deed>, client: ClientId,
                               ep: Handshake.Endpoint, seen: u32, now: u32)
    requires Fit(c.reassembly)
    requires var j := Exec(c, listener, run);
             && client in j.clients && j.clients[client].socket == Some(ep) && !j.clients[client].handshakeComplete
             && Handshake.ToServer(ep, Handshake.Hello()) in j.network
    ensures var j := Exec(c, listener, run);
            var id := j.server.nextSessionId;
            var answer := Packet(Handshake.WelcomeHeader(id), []);
            var more := [Delivered(Handshake.ToServer(ep, Handshake.Hello()), seen, now),
                         Outside(Handshake.ClientActs(client, Handshake.Receive(answer)))];
            var k := Exec(c, listener, run + more);
            && client in k.clients
            && k.clients[client] == j.clients[client].(handshakeComplete := true, sessionId := id)
            && id in k.server.sessions && ServerLog.Connected(id) in k.server.log
  {
    hide *;
    var j := Exec(c, listener, run);
    var id := j.server.nextSessionId;
    var answer := Packet(Handshake.WelcomeHeader(id), []);
    var hello := Handshake.ToServer(ep, Handshake.Hello());
    var first := Delivered(hello, seen, now);
    var second := Outside(Handshake.ClientActs(client, Handshake.Receive(answer)));
    Handshake.HelloIsHello();
    HelloAnswered(c, j, ep, seen, now);
    ExecOne(c, listener, run, first);
    var v := After(c, j, first);
    WelcomeTaken(c, v, client, ep, id);
    ExecOne(c, listener, run + [first], second);
    assert run + [first, second] == run + [first] + [second];
  }

  lemma HelloAnswered(c: ServerLog.ServerConfig, j: Joint, ep: Handshake.Endpoint, seen: u32, now: u32)
    requires ServerLog.Invariant(c, j.server) && Handshake.ToServer(ep, Handshake.Hello()) in j.network
    requires Handshake.IsHello(Handshake.Hello())
    ensures var deed := Delivered(Handshake.ToServer(ep, Handshake.Hello()), seen, now);
            && Possible(c, j, deed)
            && var (v, id) := (After(c, j, deed), j.server.nextSessionId);
               && v.clients == j.clients
               && Handshake.ToClient(ep, Packet(Handshake.WelcomeHeader(id), [])) in v.network
               && id in v.server.sessions && ServerLog.Connected(id) in v.server.log
  {
    hide Packet, Handshake.WelcomeHeader, Handshake.Hello, Handshake.IsHello, ServerLog.Invariant,
         ServerLog.AfterReceive, ServerLog.AfterHello;
    HelloIs(c, j.server, seen, now, Handshake.Hello());
    ServerHello(j.server, seen);
  }

  lemma WelcomeTaken(c: ServerLog.ServerConfig, v: Joint, client: ClientId, ep: Handshake.Endpoint, id: u64)
    requires ServerLog.Invariant(c, v.server)
    requires client in v.clients && v.clients[client].socket == Some(ep) && !v.clients[client].handshakeComplete
    requires Handshake.ToClient(ep, Packet(Handshake.WelcomeHeader(id), [])) in v.network
    ensures var answer := Packet(Handshake.WelcomeHeader(id), []);
            var deed := Outside(Handshake.ClientActs(client, Handshake.Receive(answer)));
            && Possible(c, v, deed)
            && var k := After(c, v, deed);
               && client in k.clients && k.server == v.server
               && k.clients[client] == v.clients[client].(handshakeComplete := true, sessionId := id)
  {
    Handshake.WelcomeIsWelcome(id);
    hide Packet, Handshake.IsWelcome, Handshake.WelcomeId, Handshake.WelcomeHeader, ServerLog.Invariant;
  }
}
