/** When the server ends a session, by true time. The clock shows only its last 32 bits, but the
    cleanups come often enough for that. */
module ServerClock {
  import opened LittleEndian
  import opened UdpPacket
  import opened Reassembly
  import opened ReassemblyRuns
  import opened EndToEnd
  import opened ServerLog
  import ReassemblyLaws

  /** Something the server does at a true time. */
  datatype Timed = Timed(at: nat, action: Action)

  function Actions(ts: seq<Timed>): (r: seq<Action>)
    ensures |r| == |ts|
  {
    if |ts| == 0 then [] else Actions(ts[..|ts| - 1]) + [ts[|ts| - 1].action]
  }

  ghost function ServerAfter(c: ServerConfig, listener: bool, ts: seq<Timed>): Server
    requires Fit(c.reassembly)
  {
    Exec(c, listener, Actions(ts))
  }

  /** What the clock shows at this time is what the action read. */
  predicate ClockRead(t: Timed) {
    match t.action
    case Receive(seen, _, _) => seen == ReassemblyLaws.Reading(t.at)
    case CleanUp(now, _, _) => now == ReassemblyLaws.Reading(t.at)
    case _ => true
  }

  function Latest(ts: seq<Timed>, start: nat): nat {
    if |ts| == 0 then start else ts[|ts| - 1].at
  }

  function LastCleanup(ts: seq<Timed>, start: nat): nat {
    if |ts| == 0 then start
    else if ts[|ts| - 1].action.CleanUp? then ts[|ts| - 1].at
    else LastCleanup(ts[..|ts| - 1], start)
  }

  /** Everything happens, in the order of true time, and never more than gap after a cleanup. */
  ghost predicate Paced(c: ServerConfig, listener: bool, ts: seq<Timed>, start: nat, gap: nat)
    requires Fit(c.reassembly)
  {
    |ts| > 0 ==>
      var (front, t) := (ts[..|ts| - 1], ts[|ts| - 1]);
      && Paced(c, listener, front, start, gap)
      && ClockRead(t) && Enabled(c, ServerAfter(c, listener, front), t.action)
      && Latest(front, start) <= t.at <= LastCleanup(front, start) + gap
  }

  /** The datagram creates the session or is a fragment for it. */
  predicate Reaches(s: Server, a: Action, sid: u64) {
    && a.Receive?
    && var p := Parse(Truncated(a.datagram));
    && p.ok
    && (p.header.kind == HANDSHAKE_HELLO ==> s.nextSessionId == sid)
    && (p.header.kind == DATA_FRAGMENT ==> p.header.sessionId == sid && sid in s.sessions)
    && (p.header.kind == HANDSHAKE_HELLO || p.header.kind == DATA_FRAGMENT)
  }

  /** The true time of the last datagram that reached the session. */
  ghost function LastReached(c: ServerConfig, listener: bool, ts: seq<Timed>, sid: u64): nat
    requires Fit(c.reassembly)
  {
    if |ts| == 0 then 0
    else
      var (front, t) := (ts[..|ts| - 1], ts[|ts| - 1]);
      if Reaches(ServerAfter(c, listener, front), t.action, sid) then t.at else LastReached(c, listener, front, sid)
  }

  lemma ReachedSeen(c: ServerConfig, s: Server, a: Action, sid: u64)
    requires Consistent(c, s) && Reaches(s, a, sid)
    ensures var r := Apply(c, s, a);
            a.Receive? && sid in r.sessions && r.sessions[sid].lastSeenMs == a.seen
  {
    hide Parse, Truncated, ToFragment, AddStep, Drained, Messages, Pops;
  }

  lemma UnreachedSame(c: ServerConfig, s: Server, a: Action, sid: u64)
    requires Consistent(c, s) && Enabled(c, s, a) && !Reaches(s, a, sid) && sid in Apply(c, s, a).sessions
    ensures sid in s.sessions && Apply(c, s, a).sessions[sid].lastSeenMs == s.sessions[sid].lastSeenMs
  {
    hide Parse, Truncated, ToFragment, AddStep, Drained, Messages, Pops, Ends, EndingOrder, CleanupStep, Ending;
  }

  lemma CleanupKeepsYoung(c: ServerConfig, s: Server, a: Action, sid: u64)
    requires Consistent(c, s) && Enabled(c, s, a) && a.CleanUp? && sid in s.sessions
    ensures sid in Apply(c, s, a).sessions <==> !Ending(c, a.now, s.sessions[sid])
  {
    hide Drained, Ends, EndingOrder, CleanupStep, Ending;
  }

  /** What every paced run keeps for a live session: the stored time is the true one's last 32
      bits, and at the last cleanup the silence was within the timeout. */
  ghost predicate Watched(c: ServerConfig, listener: bool, ts: seq<Timed>, start: nat, sid: u64)
    requires Fit(c.reassembly)
  {
    var s := ServerAfter(c, listener, ts);
    sid in s.sessions ==>
      var seen := LastReached(c, listener, ts, sid);
      && s.sessions[sid].lastSeenMs == ReassemblyLaws.Reading(seen)
      && seen <= Latest(ts, start)
      && LastCleanup(ts, start) - seen <= c.sessionTimeoutMs
  }

  lemma LastStep(c: ServerConfig, listener: bool, ts: seq<Timed>, start: nat, gap: nat)
    requires Fit(c.reassembly) && |ts| > 0 && Paced(c, listener, ts, start, gap)
    ensures var (s, a) := (ServerAfter(c, listener, ts[..|ts| - 1]), ts[|ts| - 1].action);
            Consistent(c, s) && Enabled(c, s, a) && ServerAfter(c, listener, ts) == Apply(c, s, a)
  {
    var all := Actions(ts);
    assert all[..|all| - 1] == Actions(ts[..|ts| - 1]);
    hide Apply, Enabled, Told, Numbered, Drained;
  }

  lemma NoSessions(c: ServerConfig, listener: bool, ts: seq<Timed>)
    requires Fit(c.reassembly) && |ts| == 0
    ensures ServerAfter(c, listener, ts).sessions == map[]
  {
  }

  lemma Verdict(c: ServerConfig, at: nat, since: nat, e: Session)
    requires e.lastSeenMs == ReassemblyLaws.Reading(since) && since <= at < since + 0x1_0000_0000
    ensures Ending(c, ReassemblyLaws.Reading(at), e) <==> e.closed || at - since > c.sessionTimeoutMs
  {
    if !e.closed { ExpiryVerdict(c, at, since, e); }
  }

  lemma {:induction false} CleanupsPast(c: ServerConfig, listener: bool, ts: seq<Timed>, start: nat, gap: nat)
    requires Fit(c.reassembly) && Paced(c, listener, ts, start, gap)
    ensures LastCleanup(ts, start) <= Latest(ts, start)
    decreases |ts|
  {
    hide ServerAfter, Enabled;
    if |ts| > 0 { CleanupsPast(c, listener, ts[..|ts| - 1], start, gap); }
  }

  lemma {:induction false} AlwaysWatched(c: ServerConfig, listener: bool, ts: seq<Timed>, start: nat, gap: nat,
                                         sid: u64)
    requires Fit(c.reassembly) && Paced(c, listener, ts, start, gap) && c.sessionTimeoutMs + gap < 0x1_0000_0000
    ensures Watched(c, listener, ts, start, sid)
    decreases |ts|
  {
    hide Exec, Apply, Enabled, Reaches, Ending, Drained, Told, Numbered;
    if |ts| == 0 {
      NoSessions(c, listener, ts);
    } else if sid in ServerAfter(c, listener, ts).sessions {
      var front, t := ts[..|ts| - 1], ts[|ts| - 1];
      AlwaysWatched(c, listener, front, start, gap, sid);
      LastStep(c, listener, ts, start, gap);
      var s := ServerAfter(c, listener, front);
      if Reaches(s, t.action, sid) {
        ReachedSeen(c, s, t.action, sid);
        CleanupsPast(c, listener, front, start, gap);
      } else {
        UnreachedSame(c, s, t.action, sid);
        if t.action.CleanUp? {
          CleanupKeepsYoung(c, s, t.action, sid);
          Verdict(c, t.at, LastReached(c, listener, front, sid), s.sessions[sid]);
        }
      }
    }
  }

  /** When every cleanup comes within gap of the one before and timeout + gap stays below 2^32, a
      cleanup ends a session exactly when it was closed or its true silence is over the timeout. */
  lemma SessionExpiryIsExact(c: ServerConfig, listener: bool, ts: seq<Timed>, start: nat, gap: nat, sid: u64)
    requires Fit(c.reassembly) && Paced(c, listener, ts, start, gap) && c.sessionTimeoutMs + gap < 0x1_0000_0000
    requires |ts| > 0 && ts[|ts| - 1].action.CleanUp?
    requires sid in ServerAfter(c, listener, ts[..|ts| - 1]).sessions
    ensures var (front, at) := (ts[..|ts| - 1], ts[|ts| - 1].at);
            sid in ServerAfter(c, listener, ts).sessions
            <==> !ServerAfter(c, listener, front).sessions[sid].closed
                 && at - LastReached(c, listener, front, sid) <= c.sessionTimeoutMs
  {
    hide Exec, Apply, Enabled, Reaches, Ending, Drained, Told, Numbered;
    var front, t := ts[..|ts| - 1], ts[|ts| - 1];
    AlwaysWatched(c, listener, front, start, gap, sid);
    LastStep(c, listener, ts, start, gap);
    CleanupsPast(c, listener, front, start, gap);
    var s := ServerAfter(c, listener, front);
    CleanupKeepsYoung(c, s, t.action, sid);
    Verdict(c, t.at, LastReached(c, listener, front, sid), s.sessions[sid]);
  }
}
