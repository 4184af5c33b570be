/** The handshake: any number of clients, one server, and a network that loses, repeats and
    reorders datagrams. The datagrams are the built bytes, and both ends parse them. */
module Handshake {
  import opened CrcSpec
  import opened Options
  import opened LittleEndian
  import opened UdpPacket
  import opened Coverage
  import opened Reassembly
  import opened ReassemblyRuns
  import EndToEnd
  import ReassemblyAnswers

  type Endpoint = nat
  type ClientId = nat

  // ----- One client -----

  datatype ClientConfig = ClientConfig(autoReconnect: bool, handshakeTimeoutMs: u32)

  /** The socket is open at an endpoint or closed. */
  datatype Client = Client(
    config: ClientConfig, socket: Option<Endpoint>, handshakeComplete: bool, sessionId: u64,
    handshakeStartMs: u32, stopRequested: bool, manuallyClosed: bool)

  /** What a handler leaves: the client, and whether it asked for a hello to be sent. */
  datatype Reaction = Reaction(client: Client, hello: bool)

  function StartHandshake(c: Client, now: u32): Reaction {
    Reaction(c.(handshakeComplete := false, sessionId := 0, handshakeStartMs := now), true)
  }

  function ScheduleReconnect(c: Client): Client {
    if !c.config.autoReconnect then c
    else if c.stopRequested || c.manuallyClosed then c
    else c.(socket := Option.None, handshakeComplete := false, sessionId := 0)
  }

  /** What opening and binding the socket came to. A socket that was opened but not bound gets its
      endpoint from the first send. */
  datatype Opening = OpenFails | BindFails(endpoint: Endpoint) | Opens(endpoint: Endpoint)

  /** A socket that is open cannot be opened again. */
  function OpenSocket(c: Client, o: Opening): Client {
    if c.socket.Some? then ScheduleReconnect(c)
    else
      match o
      case OpenFails => ScheduleReconnect(c)
      case BindFails(ep) => ScheduleReconnect(c.(socket := Some(ep)))
      case Opens(ep) => c.(socket := Some(ep))
  }

  /** The resolver answered: open the socket, then start the handshake even if that failed. */
  function OnResolved(c: Client, now: u32, o: Opening): Reaction {
    StartHandshake(OpenSocket(c, o), now)
  }

  function OnResolveFailed(c: Client): Client {
    ScheduleReconnect(c)
  }

  function OnReceiveError(c: Client): Client {
    if c.stopRequested then c else ScheduleReconnect(c)
  }

  function OnHandshakeTimeout(c: Client, now: u32): Reaction {
    if c.stopRequested then Reaction(c, false)
    else if c.handshakeComplete then Reaction(c, false)
    else if (now - c.handshakeStartMs) % 0x1_0000_0000 > c.config.handshakeTimeoutMs then
      Reaction(ScheduleReconnect(c), false)
    else
      Reaction(c, true)
  }

  function OnWelcome(c: Client, id: u64): Client {
    if c.handshakeComplete then c else c.(sessionId := id, handshakeComplete := true)
  }

  function OnDatagram(c: Client, d: seq<byte>): Client {
    if IsWelcome(d) then OnWelcome(c, WelcomeId(d)) else c
  }

  function Closed(c: Client): Client {
    c.(manuallyClosed := true, stopRequested := true, socket := Option.None)
  }

  function Hello(): seq<byte> {
    Packet(DEFAULT_HEADER.(kind := HANDSHAKE_HELLO), [])
  }

  // ----- The server's side -----

  function WelcomeHeader(id: u64): PacketHeader {
    DEFAULT_HEADER.(kind := HANDSHAKE_WELCOME, sessionId := id)
  }

  /** A session id and the endpoint whose hello it answered. */
  datatype Issue = Issue(id: u64, to: Endpoint)

  datatype Server = Server(nextSessionId: u64, issued: seq<Issue>)

  /** Every hello creates a session. */
  function CreateSession(s: Server, sender: Endpoint): (Server, seq<byte>) {
    (Server((s.nextSessionId + 1) % 0x1_0000_0000_0000_0000, s.issued + [Issue(s.nextSessionId, sender)]),
     Packet(WelcomeHeader(s.nextSessionId), []))
  }

  /** What a receiver gets of a datagram: only what its buffer takes is parsed. */
  function Received(d: seq<byte>): ParsedPacket {
    Parse(Truncated(d))
  }

  predicate IsWelcome(d: seq<byte>) {
    Received(d).ok && Received(d).header.kind == HANDSHAKE_WELCOME
  }

  function WelcomeId(d: seq<byte>): u64 {
    Received(d).header.sessionId
  }

  predicate IsHello(d: seq<byte>) {
    Received(d).ok && Received(d).header.kind == HANDSHAKE_HELLO
  }

  predicate IsData(d: seq<byte>, h: PacketHeader, p: seq<byte>) {
    h.kind == DATA_FRAGMENT && |p| < 0x1_0000_0000 && d == Packet(h, p)
  }

  // ----- The whole system -----

  datatype Wire = ToServer(sender: Endpoint, bytes: seq<byte>) | ToClient(receiver: Endpoint, bytes: seq<byte>)

  /** owner remembers which client ever had an endpoint; the system never hands one out twice. */
  datatype World = World(
    clients: map<ClientId, Client>, server: Server, network: set<Wire>, owner: map<Endpoint, ClientId>)

  const INITIAL := World(map[], Server(1, []), {}, map[])

  datatype ClientStep =
    | Resolved(now: u32, opening: Opening)
    | ResolveFailed
    | ReceiveError
    | Timeout(now: u32)
    | CloseClient
    | Receive(bytes: seq<byte>)

  function React(c: Client, step: ClientStep): Reaction {
    match step
    case Resolved(now, o) => OnResolved(c, now, o)
    case ResolveFailed => Reaction(OnResolveFailed(c), false)
    case ReceiveError => Reaction(OnReceiveError(c), false)
    case Timeout(now) => OnHandshakeTimeout(c, now)
    case CloseClient => Reaction(Closed(c), false)
    case Receive(d) => Reaction(OnDatagram(c, d), false)
  }

  datatype Action =
    | NewClient(id: ClientId, config: ClientConfig)
    | ClientActs(id: ClientId, step: ClientStep)
    | SendData(wire: Wire, header: PacketHeader, payload: seq<byte>)
    | ServerReceives(wire: Wire)
    | Lose(wire: Wire)

  predicate Possible(w: World, c: Client, step: ClientStep) {
    && (step.Resolved? && !step.opening.OpenFails? ==> step.opening.endpoint !in w.owner)
    && (step.Receive? ==> c.socket.Some? && ToClient(c.socket.value, step.bytes) in w.network)
  }

  predicate Enabled(w: World, a: Action) {
    match a
    case NewClient(c, _) => c !in w.clients
    case ClientActs(c, step) => c in w.clients && Possible(w, w.clients[c], step)
    case SendData(wire, h, p) => IsData(wire.bytes, h, p)
    case ServerReceives(wire) => wire in w.network && wire.ToServer?
    case Lose(wire) => wire in w.network
  }

  function HelloFrom(r: Reaction): set<Wire> {
    if r.hello && r.client.socket.Some? then {ToServer(r.client.socket.value, Hello())} else {}
  }

  function AfterClient(w: World, c: ClientId, step: ClientStep): World
    requires c in w.clients
  {
    var r := React(w.clients[c], step);
    World(w.clients[c := r.client], w.server, w.network + HelloFrom(r),
          if step.Resolved? && !step.opening.OpenFails? then w.owner[step.opening.endpoint := c] else w.owner)
  }

  function AfterHello(w: World, sender: Endpoint): World {
    var (s, welcome) := CreateSession(w.server, sender);
    w.(server := s, network := w.network + {ToClient(sender, welcome)})
  }

  /** A delivered datagram stays on the network: it may arrive again. */
  function Apply(w: World, a: Action): World
    requires Enabled(w, a)
  {
    match a
    case NewClient(c, config) => w.(clients := w.clients[c := Client(config, Option.None, false, 0, 0, false, false)])
    case ClientActs(c, step) => AfterClient(w, c, step)
    case SendData(wire, _, _) => w.(network := w.network + {wire})
    case ServerReceives(wire) => if IsHello(wire.bytes) then AfterHello(w, wire.sender) else w
    case Lose(wire) => w.(network := w.network - {wire})
  }

  /** The world after a run; what is not possible does not happen. */
  function Exec(run: seq<Action>): World {
    if |run| == 0 then INITIAL
    else
      var w := Exec(run[..|run| - 1]);
      if Enabled(w, run[|run| - 1]) then Apply(w, run[|run| - 1]) else w
  }

  // ----- What every run keeps -----

  ghost predicate Numbered(s: Server) {
    && s.nextSessionId == (1 + |s.issued|) % 0x1_0000_0000_0000_0000
    && forall k | 0 <= k < |s.issued| :: s.issued[k].id == (1 + k) % 0x1_0000_0000_0000_0000
  }

  /** Welcomes on the network carry an id to the endpoint it was issued to. */
  ghost predicate WelcomesGenuine(s: Server, network: set<Wire>) {
    forall wire | wire in network && wire.ToClient? && IsWelcome(wire.bytes) ::
      Issue(WelcomeId(wire.bytes), wire.receiver) in s.issued
  }

  /** The client's id was issued to an endpoint that is or was its own. */
  ghost predicate Granted(w: World, c: ClientId, id: u64) {
    exists ep :: ep in w.owner && w.owner[ep] == c && Issue(id, ep) in w.server.issued
  }

  predicate OwnSocket(w: World, c: ClientId)
    requires c in w.clients
  {
    match w.clients[c].socket
    case None => true
    case Some(ep) => ep in w.owner && w.owner[ep] == c
  }

  ghost predicate ClientsHonest(w: World) {
    forall c | c in w.clients ::
      && OwnSocket(w, c)
      && (w.clients[c].handshakeComplete ==> Granted(w, c, w.clients[c].sessionId))
  }

  ghost predicate Invariant(w: World) {
    Numbered(w.server) && WelcomesGenuine(w.server, w.network) && ClientsHonest(w)
  }

  lemma HelloIsHello()
    ensures IsHello(Hello())
  {
    ParseOfBuilt(DEFAULT_HEADER.(kind := HANDSHAKE_HELLO), []);
    PacketLength(DEFAULT_HEADER.(kind := HANDSHAKE_HELLO), []);
    hide Parse, Packet;
  }

  lemma WelcomeIsWelcome(id: u64)
    ensures IsWelcome(Packet(WelcomeHeader(id), [])) && WelcomeId(Packet(WelcomeHeader(id), [])) == id
  {
    ParseOfBuilt(WelcomeHeader(id), []);
    PacketLength(WelcomeHeader(id), []);
    hide Parse, Packet;
  }

  lemma KindSurvives(h: PacketHeader, p: seq<byte>)
    ensures |Truncated(Packet(h, p))| >= HEADER_SIZE && ReadHeader(Truncated(Packet(h, p))).kind == h.kind
  {
    hide HeaderBytes, ReadHeader, HeaderCrc;
    var d := Truncated(Packet(h, p));
    var bytes := HeaderBytes(Sealed(h, p));
    assert d == bytes + d[HEADER_SIZE..];
    ReadHeaderBytes(Sealed(h, p), d[HEADER_SIZE..]);
  }

  /** Whether the receiver's buffer takes a data datagram whole or not. */
  lemma DataIsNoWelcome(d: seq<byte>, h: PacketHeader, p: seq<byte>)
    requires IsData(d, h, p)
    ensures !IsWelcome(d)
  {
    KindSurvives(h, p);
    hide Packet, Truncated, ReadHeader, HeaderCrc;
  }

  /** Endpoints are never taken from a client and ids are never taken back. */
  ghost predicate Grows(w: World, v: World) {
    && (forall ep | ep in w.owner :: ep in v.owner && v.owner[ep] == w.owner[ep])
    && (forall i | i in w.server.issued :: i in v.server.issued)
  }

  lemma GrantedStays(w: World, v: World, c: ClientId, id: u64)
    requires Granted(w, c, id) && Grows(w, v)
    ensures Granted(v, c, id)
  {
  }

  /** One client changed: it is honest if its socket is its own and its id was granted. */
  lemma HonestAfter(w: World, v: World, c: ClientId)
    requires ClientsHonest(w) && Grows(w, v) && c in v.clients && v.clients == w.clients[c := v.clients[c]]
    requires OwnSocket(v, c) && (v.clients[c].handshakeComplete ==> Granted(v, c, v.clients[c].sessionId))
    ensures ClientsHonest(v)
  {
  }

  lemma SessionKeeps(w: World, sender: Endpoint)
    requires Invariant(w)
    ensures Invariant(AfterHello(w, sender))
  {
    var v := AfterHello(w, sender);
    WelcomeIsWelcome(w.server.nextSessionId);
    hide Packet, IsWelcome, WelcomeId, Granted;
    assert Issue(w.server.nextSessionId, sender) == v.server.issued[|w.server.issued|];
    assert WelcomesGenuine(v.server, v.network);
    forall c | c in v.clients && v.clients[c].handshakeComplete
      ensures Granted(v, c, v.clients[c].sessionId)
    {
      GrantedStays(w, v, c, v.clients[c].sessionId);
    }
    forall c | c in v.clients
      ensures OwnSocket(v, c)
    {
      assert OwnSocket(w, c);
    }
  }

  lemma ReceiveKeeps(w: World, c: ClientId, d: seq<byte>)
    requires Invariant(w) && c in w.clients && Possible(w, w.clients[c], Receive(d))
    ensures ClientsHonest(AfterClient(w, c, Receive(d)))
  {
    hide IsWelcome, WelcomeId;
    var v := AfterClient(w, c, Receive(d));
    var ep := w.clients[c].socket.value;
    assert OwnSocket(w, c);
    if IsWelcome(d) && !w.clients[c].handshakeComplete {
      assert Issue(WelcomeId(d), ToClient(ep, d).receiver) in w.server.issued;
      assert Granted(v, c, WelcomeId(d));
    } else if w.clients[c].handshakeComplete {
      GrantedStays(w, v, c, w.clients[c].sessionId);
    }
    HonestAfter(w, v, c);
  }

  /** No other step completes a handshake or takes another client's endpoint. */
  lemma OtherStepKeeps(w: World, c: ClientId, step: ClientStep)
    requires Invariant(w) && c in w.clients && Possible(w, w.clients[c], step) && !step.Receive?
    ensures ClientsHonest(AfterClient(w, c, step))
  {
    hide Granted, Hello;
    var v := AfterClient(w, c, step);
    assert OwnSocket(w, c) && OwnSocket(v, c);
    if v.clients[c].handshakeComplete {
      GrantedStays(w, v, c, w.clients[c].sessionId);
    }
    HonestAfter(w, v, c);
  }

  lemma ClientKeeps(w: World, c: ClientId, step: ClientStep)
    requires Invariant(w) && c in w.clients && Possible(w, w.clients[c], step)
    ensures Invariant(AfterClient(w, c, step))
  {
    if step.Receive? {
      ReceiveKeeps(w, c, step.bytes);
    } else {
      OtherStepKeeps(w, c, step);
    }
    hide React, Hello, IsWelcome, ClientsHonest, Numbered;
  }

  lemma HonestStays(w: World, v: World)
    requires ClientsHonest(w) && v == w.(network := v.network)
    ensures ClientsHonest(v)
  {
  }

  lemma NewClientKeeps(w: World, c: ClientId, config: ClientConfig)
    requires Invariant(w) && c !in w.clients
    ensures Invariant(Apply(w, NewClient(c, config)))
  {
  }

  lemma SendDataKeeps(w: World, wire: Wire, h: PacketHeader, p: seq<byte>)
    requires Invariant(w) && IsData(wire.bytes, h, p)
    ensures Invariant(w.(network := w.network + {wire}))
  {
    DataIsNoWelcome(wire.bytes, h, p);
    hide IsData, IsWelcome, WelcomeId, Granted, Numbered;
    HonestStays(w, w.(network := w.network + {wire}));
  }

  lemma LoseKeeps(w: World, wire: Wire)
    requires Invariant(w)
    ensures Invariant(w.(network := w.network - {wire}))
  {
  }

  lemma InvariantKept(w: World, a: Action)
    requires Invariant(w) && Enabled(w, a)
    ensures Invariant(Apply(w, a))
  {
    hide Invariant, AfterClient, Possible, IsHello, AfterHello, IsData;
    match a
    case NewClient(c, config) => NewClientKeeps(w, c, config);
    case ClientActs(c, step) => ClientKeeps(w, c, step);
    case SendData(wire, h, p) => SendDataKeeps(w, wire, h, p);
    case ServerReceives(wire) => SessionKeeps(w, wire.sender);
    case Lose(wire) => LoseKeeps(w, wire);
  }

  lemma InitialInvariant()
    ensures Invariant(INITIAL)
  {
    hide IsWelcome, WelcomeId, Granted;
  }

  lemma {:induction false} RunKeepsInvariant(run: seq<Action>)
    ensures Invariant(Exec(run))
  {
    hide Invariant, Enabled, Apply, INITIAL;
    if |run| == 0 {
      InitialInvariant();
    } else {
      RunKeepsInvariant(run[..|run| - 1]);
      var w := Exec(run[..|run| - 1]);
      if Enabled(w, run[|run| - 1]) {
        InvariantKept(w, run[|run| - 1]);
      }
    }
  }

  // ----- What follows for every run -----

  lemma IdsApart(s: Server, i: nat, j: nat)
    requires Numbered(s) && i < j < |s.issued|
    ensures j - i <= 0x1_0000_0000_0000_0000
            ==> (s.issued[i].id == s.issued[j].id <==> j - i == 0x1_0000_0000_0000_0000)
  {
  }

  lemma IdsDistinct(s: Server)
    requires Numbered(s)
    ensures (forall i, j | 0 <= i < j < |s.issued| :: s.issued[i].id != s.issued[j].id)
            <==> |s.issued| <= 0x1_0000_0000_0000_0000
  {
    hide Numbered;
    if |s.issued| > 0x1_0000_0000_0000_0000 {
      IdsApart(s, 0, 0x1_0000_0000_0000_0000);
    }
    forall i, j | |s.issued| <= 0x1_0000_0000_0000_0000 && 0 <= i < j < |s.issued|
      ensures s.issued[i].id != s.issued[j].id
    {
      IdsApart(s, i, j);
    }
  }

  lemma IdsNonZero(s: Server)
    requires Numbered(s)
    ensures (forall i | 0 <= i < |s.issued| :: s.issued[i].id != 0) <==> |s.issued| < 0x1_0000_0000_0000_0000
  {
    if |s.issued| >= 0x1_0000_0000_0000_0000 {
      assert s.issued[0xFFFF_FFFF_FFFF_FFFF].id == 0;
    }
  }

  /** Issued ids are pairwise distinct exactly while the 64-bit counter has not come round, and
      none of them is zero exactly while it has not reached zero. */
  lemma IssuedIdsDistinct(run: seq<Action>)
    ensures var issued := Exec(run).server.issued;
            && ((forall i, j | 0 <= i < j < |issued| :: issued[i].id != issued[j].id)
                <==> |issued| <= 0x1_0000_0000_0000_0000)
            && ((forall i | 0 <= i < |issued| :: issued[i].id != 0)
                <==> |issued| < 0x1_0000_0000_0000_0000)
  {
    RunKeepsInvariant(run);
    var s := Exec(run).server;
    hide Exec, Numbered;
    IdsDistinct(s);
    IdsNonZero(s);
  }

  /** A completed handshake holds an id that the server issued to an endpoint of that client; it
      is not zero while the counter has not come round. */
  lemma CompletedHoldsIssued(run: seq<Action>, c: ClientId)
    requires c in Exec(run).clients && Exec(run).clients[c].handshakeComplete
    ensures Granted(Exec(run), c, Exec(run).clients[c].sessionId)
    ensures |Exec(run).server.issued| < 0x1_0000_0000_0000_0000 ==> Exec(run).clients[c].sessionId != 0
  {
    RunKeepsInvariant(run);
    var w := Exec(run);
    hide Exec, Numbered, WelcomesGenuine;
    var ep :| ep in w.owner && w.owner[ep] == c && Issue(w.clients[c].sessionId, ep) in w.server.issued;
    IdsNonZero(w.server);
  }

  lemma OneOwner(w: World, c: ClientId, d: ClientId, id: u64)
    requires Granted(w, c, id) && Granted(w, d, id)
    requires forall i, j | 0 <= i < j < |w.server.issued| :: w.server.issued[i].id != w.server.issued[j].id
    ensures c == d
  {
  }

  /** No two clients with completed handshakes hold the same session. */
  lemma SessionsAreExclusive(run: seq<Action>, c: ClientId, d: ClientId)
    requires c in Exec(run).clients && Exec(run).clients[c].handshakeComplete
    requires d in Exec(run).clients && Exec(run).clients[d].handshakeComplete
    requires Exec(run).clients[c].sessionId == Exec(run).clients[d].sessionId
    requires |Exec(run).server.issued| <= 0x1_0000_0000_0000_0000
    ensures c == d
  {
    hide *;
    CompletedHoldsIssued(run, c);
    CompletedHoldsIssued(run, d);
    IssuedIdsDistinct(run);
    OneOwner(Exec(run), c, d, Exec(run).clients[c].sessionId);
  }

  /** A client that waits on an open socket gets its session when its hello and then the answer
      arrive, whatever else the run has done. */
  lemma HandshakeCompletes(run: seq<Action>, c: ClientId, ep: Endpoint)
    requires var w := Exec(run);
             && c in w.clients && w.clients[c].socket == Some(ep) && !w.clients[c].handshakeComplete
             && ToServer(ep, Hello()) in w.network
    ensures var w := Exec(run);
            var id := w.server.nextSessionId;
            var more := [ServerReceives(ToServer(ep, Hello())), ClientActs(c, Receive(Packet(WelcomeHeader(id), [])))];
            var v := Exec(run + more);
            c in v.clients && v.clients[c] == w.clients[c].(handshakeComplete := true, sessionId := id)
  {
    hide *;
    var w := Exec(run);
    var id := w.server.nextSessionId;
    var welcome := Packet(WelcomeHeader(id), []);
    var first, second := ServerReceives(ToServer(ep, Hello())), ClientActs(c, Receive(welcome));
    var v := AfterHello(w, ep);
    HelloStep(run, ep);
    WelcomeStep(run + [first], c, ep, id);
    assert run + [first, second] == run + [first] + [second];
  }

  lemma ExecSnoc(run: seq<Action>, a: Action)
    requires Enabled(Exec(run), a)
    ensures Exec(run + [a]) == Apply(Exec(run), a)
  {
  }

  lemma HelloStep(run: seq<Action>, ep: Endpoint)
    requires ToServer(ep, Hello()) in Exec(run).network
    ensures var w := Exec(run);
            var v := Exec(run + [ServerReceives(ToServer(ep, Hello()))]);
            v.clients == w.clients && ToClient(ep, Packet(WelcomeHeader(w.server.nextSessionId), [])) in v.network
  {
    HelloIsHello();
    hide Exec, Hello, Packet, IsHello;
    ExecSnoc(run, ServerReceives(ToServer(ep, Hello())));
  }

  lemma WelcomeStep(run: seq<Action>, c: ClientId, ep: Endpoint, id: u64)
    requires var w := Exec(run);
             && c in w.clients && w.clients[c].socket == Some(ep) && !w.clients[c].handshakeComplete
             && ToClient(ep, Packet(WelcomeHeader(id), [])) in w.network
    ensures var v := Exec(run + [ClientActs(c, Receive(Packet(WelcomeHeader(id), [])))]);
            c in v.clients && v.clients[c] == Exec(run).clients[c].(handshakeComplete := true, sessionId := id)
  {
    WelcomeIsWelcome(id);
    hide Exec, Packet, IsWelcome, WelcomeId, WelcomeHeader;
    ExecSnoc(run, ClientActs(c, Receive(Packet(WelcomeHeader(id), []))));
  }

  // ----- The client object -----

  /** The client's buffer after a datagram: a fragment of its own session goes in. */
  ghost function AfterData(u: Setup, sessionId: u64, now: u32, s: State, d: seq<byte>): State
    requires Fit(u) && StateInvariant(s)
  {
    var fragments := EndToEnd.Handle(sessionId, now, d);
    if fragments == [] then s else Step(u, s, fragments[0])
  }

  ghost function TakenIn(u: Setup, sessionId: u64, now: u32, s: State, p: ParsedPacket): State
    requires Fit(u) && StateInvariant(s)
  {
    if p.ok && p.header.kind == DATA_FRAGMENT && p.header.sessionId == sessionId then
      AddStep(u.cfg, u.sort, now, s, EndToEnd.ToFragment(p)).0
    else s
  }

  lemma DataGoesIn(u: Setup, sessionId: u64, now: u32, s: State, d: seq<byte>)
    requires Fit(u) && StateInvariant(s)
    ensures AfterData(u, sessionId, now, s, d) == TakenIn(u, sessionId, now, s, Received(d))
  {
    hide Parse, Truncated, StateInvariant, Sorts, AddStep, EndToEnd.ToFragment;
  }

  /** The queue grows only when the fragment completes its message. */
  lemma QueueUntouched(cfg: Config, sort: Sorter, now: u32, s: State, f: Fragment)
    requires Sorts(sort) && StateInvariant(s) && AddStep(cfg, sort, now, s, f).1 != Completed
    ensures AddStep(cfg, sort, now, s, f).0.completed == s.completed
  {
    hide StateInvariant, Sorts, Filled, Fresh, Crc;
  }

  function DataOf(ms: seq<CompletedMessage>): seq<seq<byte>> {
    if |ms| == 0 then [] else DataOf(ms[..|ms| - 1]) + [ms[|ms| - 1].data]
  }

  lemma NoData()
    ensures DataOf([]) == []
  {
  }

  lemma DataOfSnoc(ms: seq<CompletedMessage>, m: CompletedMessage)
    ensures DataOf(ms + [m]) == DataOf(ms) + [m.data]
  {
  }

  class UdpClient {
    const config: ClientConfig
    const reassembly: ReassemblyBuffer
    var socket: Option<Endpoint>
    var handshakeComplete: bool
    var sessionId: u64
    var handshakeStartMs: u32
    var stopRequested: bool
    var manuallyClosed: bool
    /** The datagrams handed to the socket so far. */
    var sent: seq<seq<byte>>
    /** The messages queued for the listener so far. */
    var messages: seq<seq<byte>>

    ghost function Contents(): Client
      reads this
    {
      Client(config, socket, handshakeComplete, sessionId, handshakeStartMs, stopRequested, manuallyClosed)
    }

    /** Between calls every completed message has been passed on. */
    ghost predicate Valid()
      reads this, reassembly
    {
      reassembly.Valid() && reassembly.completed == []
    }

    ghost function Setup(): Setup {
      ReassemblyRuns.Setup(reassembly.config, reassembly.sort)
    }

    /** Non-empty messages of at most the size the client was created with. */
    predicate SmallOnly(ms: seq<seq<byte>>) {
      forall m | m in ms :: 0 < |m| <= reassembly.config.maxMessageSize
    }

    ghost function Sent(hello: bool): seq<seq<byte>>
      reads this
    {
      if hello then sent + [Hello()] else sent
    }

    constructor (config: ClientConfig, limits: Config, sort: Sorter)
      requires Sorts(sort)
      ensures Valid() && fresh(reassembly) && Setup() == ReassemblyRuns.Setup(limits, sort)
      ensures Contents() == Client(config, Option.None, false, 0, 0, false, false) && sent == [] && messages == []
      ensures reassembly.Contents() == State(map[], [])
    {
      this.config := config;
      reassembly := new ReassemblyBuffer(limits, sort);
      socket := Option.None;
      handshakeComplete, sessionId, handshakeStartMs := false, 0, 0;
      stopRequested, manuallyClosed := false, false;
      sent, messages := [], [];
    }

    method BeginHandshake(now: u32)
      modifies this
      ensures Contents() == StartHandshake(old(Contents()), now).client && sent == old(Sent(true))
      ensures messages == old(messages)
    {
      hide Hello;
      handshakeComplete := false;
      sessionId := 0;
      handshakeStartMs := now;
      SendHandshakeHello();
    }

    method SendHandshakeHello()
      modifies this`sent
      ensures sent == old(sent) + [Hello()]
    {
      hide Packet;
      var packet := BuildPacket(DEFAULT_HEADER.(kind := HANDSHAKE_HELLO), []);
      sent := sent + [packet];
    }

    method Reconnect()
      modifies this`socket, this`handshakeComplete, this`sessionId
      ensures Contents() == ScheduleReconnect(old(Contents()))
    {
      if !config.autoReconnect {
        return;
      }
      if stopRequested || manuallyClosed {
        return;
      }
      socket := Option.None;
      handshakeComplete := false;
      sessionId := 0;
    }

    method TryOpen(o: Opening)
      modifies this`socket, this`handshakeComplete, this`sessionId
      ensures Contents() == OpenSocket(old(Contents()), o)
    {
      if socket.Some? || o.OpenFails? {
        Reconnect();
        return;
      }
      socket := Some(o.endpoint);
      if o.BindFails? {
        Reconnect();
      }
    }

    method Resolved(now: u32, o: Opening)
      modifies this
      ensures Contents() == OnResolved(old(Contents()), now, o).client && sent == old(Sent(true))
      ensures messages == old(messages)
    {
      hide Hello, OpenSocket;
      TryOpen(o);
      BeginHandshake(now);
    }

    method ResolveFailed()
      modifies this`socket, this`handshakeComplete, this`sessionId
      ensures Contents() == OnResolveFailed(old(Contents()))
    {
      Reconnect();
    }

    method ReceiveFailed()
      modifies this`socket, this`handshakeComplete, this`sessionId
      ensures Contents() == OnReceiveError(old(Contents()))
    {
      if stopRequested {
        return;
      }
      Reconnect();
    }

    method Close()
      modifies this`socket, this`stopRequested, this`manuallyClosed
      ensures Contents() == Closed(old(Contents()))
    {
      manuallyClosed := true;
      stopRequested := true;
      socket := Option.None;
    }

    method HandshakeTimeout(now: u32)
      modifies this
      ensures var r := OnHandshakeTimeout(old(Contents()), now);
              Contents() == r.client && sent == old(Sent(r.hello))
      ensures messages == old(messages)
      ensures var late := (now - old(handshakeStartMs)) % 0x1_0000_0000 > config.handshakeTimeoutMs;
              if old(stopRequested) || old(handshakeComplete) then
                Contents() == old(Contents()) && sent == old(sent)
              else if !late then
                Contents() == old(Contents()) && sent == old(sent) + [Hello()]
              else
                sent == old(sent)
                && socket == if config.autoReconnect && !old(manuallyClosed) then Option.None else old(socket)
    {
      hide Hello;
      if stopRequested {
        return;
      }
      if handshakeComplete {
        return;
      }
      if (now - handshakeStartMs) % 0x1_0000_0000 > config.handshakeTimeoutMs {
        Reconnect();
        return;
      }
      SendHandshakeHello();
    }

    /** A welcome completes the handshake; a fragment of the session goes into the buffer, and what
        it completes is passed on at once. */
    method Receive(now: u32, d: seq<byte>)
      requires Valid()
      modifies this, reassembly
      ensures Valid()
      ensures Contents() == OnDatagram(old(Contents()), d) && sent == old(sent)
      ensures var s := AfterData(Setup(), old(sessionId), now, old(reassembly.Contents()), d);
              && reassembly.Contents() == s.(completed := [])
              && messages == old(messages) + DataOf(s.completed)
              && SmallOnly(DataOf(s.completed))
    {
      hide Parse, Truncated, ReassemblyBuffer.Valid, StateInvariant, Sorts, AfterData, TakenIn;
      ValidMeans();
      DataGoesIn(Setup(), sessionId, now, reassembly.Contents(), d);
      var packet := ParsePacket(Truncated(d));
      Dispatch(now, packet);
    }

    method Dispatch(now: u32, packet: ParsedPacket)
      requires Valid() && Fit(Setup()) && StateInvariant(reassembly.Contents())
      modifies this`sessionId, this`handshakeComplete, this`messages, reassembly
      ensures Valid()
      ensures Contents() == if packet.ok && packet.header.kind == HANDSHAKE_WELCOME then
                              OnWelcome(old(Contents()), packet.header.sessionId)
                            else
                              old(Contents())
      ensures var s := TakenIn(Setup(), old(sessionId), now, old(reassembly.Contents()), packet);
              && reassembly.Contents() == s.(completed := [])
              && messages == old(messages) + DataOf(s.completed)
              && SmallOnly(DataOf(s.completed))
    {
      hide ReassemblyBuffer.Valid, AddStep, StateInvariant, Sorts, EndToEnd.ToFragment, DataOf;
      NoData();
      if !packet.ok {
        return;
      }
      if packet.header.kind == HANDSHAKE_WELCOME {
        TakeWelcome(packet);
      } else if packet.header.kind == DATA_FRAGMENT {
        if packet.header.sessionId == sessionId {
          TakeFragment(now, EndToEnd.ToFragment(packet));
        }
      }
    }

    lemma ValidMeans()
      requires Valid()
      ensures Fit(Setup()) && StateInvariant(reassembly.Contents()) && reassembly.completed == []
    {
    }

    method TakeWelcome(packet: ParsedPacket)
      modifies this`sessionId, this`handshakeComplete
      ensures Contents() == OnWelcome(old(Contents()), packet.header.sessionId)
    {
      if handshakeComplete {
        return;
      }
      sessionId := packet.header.sessionId;
      handshakeComplete := true;
    }

    lemma OneIsSmall(ms: seq<CompletedMessage>)
      requires |ms| <= 1 && forall m | m in ms :: 0 < |m.data| <= reassembly.config.maxMessageSize
      ensures SmallOnly(DataOf(ms))
    {
      if |ms| == 1 { assert DataOf(ms[..0]) == []; }
    }

    method TakeFragment(now: u32, f: Fragment)
      requires Valid() && Sorts(reassembly.sort) && StateInvariant(reassembly.Contents())
      modifies this`messages, reassembly
      ensures Valid()
      ensures var s := AddStep(reassembly.config, reassembly.sort, now, old(reassembly.Contents()), f).0;
              && reassembly.Contents() == s.(completed := [])
              && messages == old(messages) + DataOf(s.completed)
              && SmallOnly(DataOf(s.completed))
    {
      hide AddStep, StateInvariant, Sorts, ReassemblyBuffer.Valid;
      ghost var before := reassembly.Contents();
      ReassemblyAnswers.CompletionIsSmall(Setup(), before, now, f);
      OneIsSmall(AddStep(reassembly.config, reassembly.sort, now, before, f).0.completed);
      var outcome := reassembly.AddFragment(now, f);
      if outcome == Completed {
        EmitCompletedMessages();
      } else {
        QueueUntouched(reassembly.config, reassembly.sort, now, before, f);
      }
    }

    method EmitCompletedMessages()
      requires reassembly.Valid()
      modifies this`messages, reassembly`completed
      ensures Valid()
      ensures messages == old(messages) + DataOf(old(reassembly.completed))
    {
      hide ReassemblyBuffer.Valid, DataOf;
      ghost var gone: seq<CompletedMessage> := [];
      NoData();
      var more := reassembly.HasCompleted();
      while more
        invariant gone + reassembly.completed == old(reassembly.completed)
        invariant more <==> reassembly.completed != []
        invariant reassembly.Valid()
        invariant messages == old(messages) + DataOf(gone)
        decreases |reassembly.completed|
      {
        var message := reassembly.PopCompleted();
        DataOfSnoc(gone, message);
        gone := gone + [message];
        messages := messages + [message.data];
        more := reassembly.HasCompleted();
      }
      assert gone == old(reassembly.completed);
    }
  }
}
