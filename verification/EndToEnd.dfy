/** From one SendInternal call to the receiver's completed queue, through the datagram format. */
module EndToEnd {
  import opened CrcSpec
  import opened LittleEndian
  import opened Coverage
  import opened UdpPacket
  import opened UdpSend
  import opened Reassembly
  import opened ReassemblyRuns
  import opened ReassemblyLaws

  /** A parsed data fragment as the reassembly buffer is given it. */
  function ToFragment(p: ParsedPacket): Fragment {
    Fragment(p.header.messageId, p.header.fragmentIndex, p.header.fragmentCount, p.header.totalSize,
             p.header.fragmentOffset, p.header.messageCrc, p.payload)
  }

  /** What a receiver expecting one session makes of a datagram: at most one reassembly event. */
  function Handle(sessionId: u64, now: u32, d: seq<byte>): (r: seq<Event>)
    ensures |r| <= 1
  {
    var p := Parse(Truncated(d));
    if p.ok && p.header.kind == DATA_FRAGMENT && p.header.sessionId == sessionId then [Arrive(now, ToFragment(p))]
    else []
  }

  datatype Arrival = Arrival(now: u32, datagram: seq<byte>)

  function HandleAll(sessionId: u64, arrivals: seq<Arrival>): seq<Event> {
    if |arrivals| == 0 then []
    else HandleAll(sessionId, arrivals[..|arrivals| - 1])
         + Handle(sessionId, arrivals[|arrivals| - 1].now, arrivals[|arrivals| - 1].datagram)
  }

  /** One message under way: what it is and how it was cut. */
  datatype Transfer = Transfer(sessionId: u64, messageId: u32, payload: seq<byte>, m: nat) {
    /** Within the sender's and the receiver's limits. */
    predicate Fits(cfg: Config) {
      && m > 0 && m + 47 <= 2048
      && 0 < |payload| <= 65535 * m
      && |payload| < 0x1_0000_0000 && |payload| <= cfg.maxMessageSize
    }

    function Count(): u16
      requires m > 0
    {
      FragmentCount(|payload|, m)
    }

    function Piece(i: nat): Fragment
      requires m > 0 && |payload| < 0x1_0000_0000 && i < Count()
    {
      PieceInMessage(|payload|, m, i);
      Fragment(messageId, i, Count(), |payload|, i * m, Crc(payload), PieceBytes(payload, m, i))
    }
  }

  lemma PieceInBounds(cfg: Config, t: Transfer, i: nat, h: PacketHeader, p: seq<byte>)
    requires t.Fits(cfg) && i < t.Count()
    requires h == PieceHeader(t.sessionId, t.messageId, t.payload, t.m, i) && p == PieceBytes(t.payload, t.m, i)
    ensures h.magic == UDP_MAGIC && h.version == UDP_VERSION && h.kind == DATA_FRAGMENT && h.sessionId == t.sessionId
    ensures |p| <= t.m && FragmentInBounds(h.(payloadSize := |p|))
    ensures t.Piece(i)
         == Fragment(h.messageId, h.fragmentIndex, h.fragmentCount, h.totalSize, h.fragmentOffset, h.messageCrc, p)
  {
    hide Crc, FragmentCount, PieceSize, FragmentInBounds;
    PieceInMessage(|t.payload|, t.m, i);
    PlainOffset(i * t.m, |p|, |t.payload|);
    BoundsOf(h, |p|);
  }

  lemma PlainOffset(offset: nat, size: nat, total: nat)
    requires offset + size <= total < 0x1_0000_0000
    ensures offset % 0x1_0000_0000 == offset && total % 0x1_0000_0000 == total
  {
  }

  lemma BoundsOf(h: PacketHeader, size: u32)
    requires h.fragmentIndex < h.fragmentCount && 0 < h.totalSize && h.fragmentOffset + size <= h.totalSize
    ensures FragmentInBounds(h.(payloadSize := size))
  {
  }

  lemma FragmentParses(h: PacketHeader, p: seq<byte>)
    requires |p| < 0x1_0000_0000 && h.magic == UDP_MAGIC && h.version == UDP_VERSION && h.kind == DATA_FRAGMENT
    requires FragmentInBounds(h.(payloadSize := |p|))
    ensures Parse(Packet(h, p)).ok
    ensures Parse(Packet(h, p)).header.kind == h.kind && Parse(Packet(h, p)).header.sessionId == h.sessionId
    ensures ToFragment(Parse(Packet(h, p)))
         == Fragment(h.messageId, h.fragmentIndex, h.fragmentCount, h.totalSize, h.fragmentOffset, h.messageCrc, p)
  {
    hide Parse, Packet, Crc;
    ParseOfBuilt(h, p);
  }

  lemma HandleParsed(sessionId: u64, now: u32, d: seq<byte>)
    requires |d| <= RECEIVE_BUFFER && Parse(d).ok
    requires Parse(d).header.kind == DATA_FRAGMENT && Parse(d).header.sessionId == sessionId
    ensures Handle(sessionId, now, d) == [Arrive(now, ToFragment(Parse(d)))]
  {
    hide Parse, ToFragment;
  }

  /** A built fragment arrives as the piece it was cut as. */
  lemma PieceArrives(cfg: Config, t: Transfer, now: u32, i: nat)
    requires t.Fits(cfg) && i < t.Count()
    ensures Handle(t.sessionId, now, PieceDatagram(t.sessionId, t.messageId, t.payload, t.m, i))
         == [Arrive(now, t.Piece(i))]
  {
    var h, p := PieceHeader(t.sessionId, t.messageId, t.payload, t.m, i), PieceBytes(t.payload, t.m, i);
    PieceInBounds(cfg, t, i, h, p);
    hide Parse, Packet, Crc, Handle, ToFragment, PieceHeader, PieceBytes, FragmentCount, PieceSize;
    FragmentParses(h, p);
    PacketLength(h, p);
    HandleParsed(t.sessionId, now, Packet(h, p));
  }

  // ----- The entry while the pieces come in -----

  /** The buffer after exactly the pieces in got have arrived, some but not all. */
  ghost predicate Progress(cfg: Config, t: Transfer, s: State, got: set<nat>)
    requires t.Fits(cfg)
  {
    if got == {} then t.messageId !in s.messages else
    && t.messageId in s.messages
    && var e := s.messages[t.messageId];
    && PartlyFilled(cfg, t, e, got)
  }

  ghost predicate PartlyFilled(cfg: Config, t: Transfer, e: MessageState, got: set<nat>)
    requires t.Fits(cfg)
  {
    && EntryShape(e)
    && e.totalSize == |t.payload| && e.fragmentCount == t.Count() && e.messageCrc == Crc(t.payload)
    && (forall k | 0 <= k < t.Count() :: e.fragments[k].received <==> k in got)
    && (forall k | 0 <= k < t.Count() && k in got :: PieceIn(cfg, t, e, k))
  }

  ghost predicate PieceIn(cfg: Config, t: Transfer, e: MessageState, k: nat)
    requires t.Fits(cfg) && k < t.Count()
  {
    && var r := PieceRange(|t.payload|, t.m, k);
    && k < |e.fragments|
    && e.fragments[k] == FragmentInfo(r.off, r.size, true)
    && r.End() <= |e.buffer| && r.End() <= |t.payload|
    && e.buffer[r.off..r.End()] == t.payload[r.off..r.End()]
  }

  ghost predicate Full(t: Transfer, got: set<nat>)
    requires t.m > 0
  {
    forall k: nat | k < t.Count() :: k in got
  }

  lemma PieceScreened(cfg: Config, t: Transfer, i: nat)
    requires t.Fits(cfg) && i < t.Count()
    ensures Screen(cfg, t.Piece(i)) == Outcome.Accepted
  {
  }

  lemma PiecesApart(total: nat, m: nat, i: nat, k: nat)
    requires m > 0 && i < FragmentCount(total, m) && k < FragmentCount(total, m) && i != k
    ensures PieceRange(total, m, i).End() <= PieceRange(total, m, k).off
         || PieceRange(total, m, k).End() <= PieceRange(total, m, i).off
  {
    PieceInMessage(total, m, i);
    PieceInMessage(total, m, k);
    if i < k { Below(i, k, m); } else { Below(k, i, m); }
  }

  lemma PieceKept(cfg: Config, t: Transfer, e: MessageState, i: nat, k: nat)
    requires t.Fits(cfg) && i < t.Count() && k < t.Count() && EntryShape(e)
    requires e.totalSize == |t.payload| && e.fragmentCount == t.Count()
    requires k != i ==> PieceIn(cfg, t, e, k)
    requires EntryShape(e) && t.Piece(i).offset + |t.Piece(i).payload| <= e.totalSize
    ensures PieceIn(cfg, t, Filled(e, t.Piece(i)), k)
  {
    hide Crc;
    PieceInMessage(|t.payload|, t.m, i);
    PieceInMessage(|t.payload|, t.m, k);
    var g, r := Filled(e, t.Piece(i)), PieceRange(|t.payload|, t.m, k);
    if k != i {
      PiecesApart(|t.payload|, t.m, i, k);
      hide FragmentCount, PieceSize;
      assert g.buffer[r.off..r.End()] == e.buffer[r.off..r.End()];
    } else {
      hide FragmentCount, PieceSize;
      assert g.buffer[r.off..r.End()] == t.payload[r.off..r.End()];
    }
  }

  lemma FilledProgress(cfg: Config, t: Transfer, e: MessageState, got: set<nat>, i: nat)
    requires t.Fits(cfg) && i < t.Count() && PartlyFilled(cfg, t, e, got)
    requires t.Piece(i).offset + |t.Piece(i).payload| <= e.totalSize
    ensures PartlyFilled(cfg, t, Filled(e, t.Piece(i)), got + {i})
  {
    hide Crc, PieceIn, Overwrite, PieceBytes;
    forall k: nat | k < t.Count() && k in got + {i} ensures PieceIn(cfg, t, Filled(e, t.Piece(i)), k) {
      PieceKept(cfg, t, e, i, k);
    }
  }

  lemma AllInTiles(cfg: Config, sort: Sorter, t: Transfer, e: MessageState, got: set<nat>)
    requires t.Fits(cfg) && Sorts(sort) && PartlyFilled(cfg, t, e, got) && Full(t, got)
    ensures Coverage.Accepted(sort, e.fragments, e.totalSize)
  {
    var total := |t.payload|;
    hide Crc, FragmentCount, PieceSize;
    forall k | 0 <= k < |e.fragments| ensures RangesOf(e.fragments)[k] == PieceRanges(total, t.m)[k] {
      assert PieceIn(cfg, t, e, k);
    }
    assert RangesOf(e.fragments) == PieceRanges(total, t.m);
    PiecesChain(total, t.m);
    ChainIsExact(PieceRanges(total, t.m), total);
    forall k: nat | k < t.Count() ensures PieceRange(total, t.m, k).size > 0 { PieceInMessage(total, t.m, k); }
    hide ExactCover, Chain;
    ExactIsAccepted(sort, e.fragments, total);
  }

  /** Every byte of a message lies in one of its pieces. */
  lemma PieceAt(total: nat, m: nat, p: nat) returns (k: nat)
    requires m > 0 && p < total <= 65535 * m
    ensures k < FragmentCount(total, m) && PieceRange(total, m, k).Covers(p)
  {
    hide FragmentCount, PieceSize, Chain, PieceRanges;
    var a := PieceRanges(total, m);
    PiecesChain(total, m);
    ChainIsExact(a, total);
    assert Covered(a, p);
    k :| 0 <= k < |a| && a[k].Covers(p);
  }

  lemma ByteInPiece(cfg: Config, t: Transfer, e: MessageState, k: nat, p: nat)
    requires t.Fits(cfg) && k < t.Count() && PieceIn(cfg, t, e, k) && p < |e.buffer| && p < |t.payload|
    requires PieceRange(|t.payload|, t.m, k).Covers(p)
    ensures e.buffer[p] == t.payload[p]
  {
    hide PieceRange, FragmentCount;
    var r := PieceRange(|t.payload|, t.m, k);
    assert e.buffer[p] == e.buffer[r.off..r.End()][p - r.off];
    assert t.payload[p] == t.payload[r.off..r.End()][p - r.off];
  }

  lemma AllInEquals(cfg: Config, t: Transfer, e: MessageState, got: set<nat>)
    requires t.Fits(cfg) && PartlyFilled(cfg, t, e, got) && Full(t, got)
    ensures e.buffer == t.payload
  {
    hide Crc, FragmentCount, PieceRange, PieceIn;
    forall p: nat | p < |t.payload| ensures e.buffer[p] == t.payload[p] {
      var k := PieceAt(|t.payload|, t.m, p);
      ByteInPiece(cfg, t, e, k, p);
    }
  }

  lemma TargetProgress(u: Setup, t: Transfer, s: State, got: set<nat>, now: u32, i: nat)
    requires Fit(u) && StateInvariant(s) && t.Fits(u.cfg) && Progress(u.cfg, t, s, got) && i < t.Count()
    ensures PartlyFilled(u.cfg, t, Target(now, s, t.Piece(i)), got)
  {
  }

  lemma PieceNew(u: Setup, t: Transfer, s: State, got: set<nat>, now: u32, i: nat)
    requires Fit(u) && StateInvariant(s) && t.Fits(u.cfg) && Progress(u.cfg, t, s, got) && i < t.Count() && i !in got
    ensures Screen(u.cfg, t.Piece(i)) == Outcome.Accepted
    ensures var f := t.Piece(i);
            var e := Target(now, s, f);
            && EntryInvariant(e) && SameParams(e, f)
            && EntryShape(e) && f.index < e.fragmentCount && f.offset + |f.payload| <= e.totalSize
            && !e.fragments[f.index].received
            && PartlyFilled(u.cfg, t, Filled(e, f), got + {i})
            && Filled(e, f).receivedCount == ReceivedCount(Filled(e, f).fragments)
  {
    var f := t.Piece(i);
    PieceScreened(u.cfg, t, i);
    TargetInvariant(u.cfg, now, s, f);
    TargetProgress(u, t, s, got, now, i);
    var e := Target(now, s, f);
    hide Crc, PieceBytes, PieceIn, FragmentCount, Target, Fresh, Progress, Transfer.Fits;
    FilledShape(u.cfg, e, f);
    FilledProgress(u.cfg, t, e, got, i);
  }

  lemma PieceDuplicate(u: Setup, t: Transfer, s: State, got: set<nat>, now: u32, i: nat)
    requires Fit(u) && StateInvariant(s) && t.Fits(u.cfg) && Progress(u.cfg, t, s, got) && i < t.Count() && i in got
    ensures AddStep(u.cfg, u.sort, now, s, t.Piece(i)) == (s, Duplicate)
  {
    PieceScreened(u.cfg, t, i);
    hide Crc, PieceBytes, PieceIn, EntryInvariant, FragmentCount, Filled, Fresh;
  }

  /** A piece already there is a duplicate; a new one is kept; the one that was missing completes. */
  lemma PieceStep(u: Setup, t: Transfer, s: State, got: set<nat>, now: u32, i: nat)
    requires Fit(u) && StateInvariant(s) && t.Fits(u.cfg) && Progress(u.cfg, t, s, got) && i < t.Count()
    ensures var (s', o) := AddStep(u.cfg, u.sort, now, s, t.Piece(i));
            if i in got then o == Duplicate && s' == s
            else if Full(t, got + {i}) then
              o == Completed && s'.completed == s.completed + [CompletedMessage(t.messageId, t.payload)]
            else o == Outcome.Accepted && Progress(u.cfg, t, s', got + {i})
  {
    if i in got {
      PieceDuplicate(u, t, s, got, now, i);
    } else {
      hide Crc, PieceBytes, PieceIn, EntryInvariant, FragmentCount, Filled, Target, Fresh, Coverage.Accepted,
           EntryShape, ReceivedCount, PartlyFilled, Full, Screen, SameParams, StateInvariant, Transfer.Fits, Fit,
           Transfer.Count, Progress;
      PieceNew(u, t, s, got, now, i);
      var g := Filled(Target(now, s, t.Piece(i)), t.Piece(i));
      PieceParams(u.cfg, t, g, got + {i});
      if Full(t, got + {i}) {
        AllInTiles(u.cfg, u.sort, t, g, got + {i});
        AllInEquals(u.cfg, t, g, got + {i});
        FullCounted(u.cfg, t, g, got + {i});
      } else {
        NotFullCounted(u.cfg, t, g, got + {i});
      }
    }
  }

  lemma PieceParams(cfg: Config, t: Transfer, g: MessageState, got: set<nat>)
    requires t.Fits(cfg) && PartlyFilled(cfg, t, g, got)
    ensures g.totalSize == |t.payload| && g.fragmentCount == t.Count() && g.messageCrc == Crc(t.payload)
  {
  }

  lemma FullCounted(cfg: Config, t: Transfer, g: MessageState, got: set<nat>)
    requires t.Fits(cfg) && PartlyFilled(cfg, t, g, got) && Full(t, got)
    ensures ReceivedCount(g.fragments) == g.fragmentCount
  {
  }

  lemma NotFullCounted(cfg: Config, t: Transfer, g: MessageState, got: set<nat>)
    requires t.Fits(cfg) && PartlyFilled(cfg, t, g, got) && !Full(t, got)
    ensures ReceivedCount(g.fragments) < g.fragmentCount
  {
  }

  // ----- Whole arrival sequences -----

  /** The indices whose datagram this is: one for a datagram of the transfer, none for others. */
  function PieceOf(t: Transfer, d: seq<byte>): set<nat>
    requires t.m > 0
  {
    set i: nat | i < t.Count() && d == PieceDatagram(t.sessionId, t.messageId, t.payload, t.m, i)
  }

  /** The indices that have arrived at least once. */
  function Got(t: Transfer, arrivals: seq<Arrival>): set<nat>
    requires t.m > 0
  {
    if |arrivals| == 0 then {}
    else Got(t, arrivals[..|arrivals| - 1]) + PieceOf(t, arrivals[|arrivals| - 1].datagram)
  }

  /** Anything that cannot be taken for a fragment of this message: damaged datagrams, other
      sessions, other messages, handshakes. */
  predicate Foreign(t: Transfer, a: Arrival) {
    forall e | e in Handle(t.sessionId, a.now, a.datagram) :: e.Arrive? ==> e.f.messageId != t.messageId
  }

  /** Duplicates, any order, anything foreign in between. */
  predicate Admissible(t: Transfer, arrivals: seq<Arrival>)
    requires t.m > 0
  {
    forall n | 0 <= n < |arrivals| :: PieceOf(t, arrivals[n].datagram) != {} || Foreign(t, arrivals[n])
  }

  ghost function After(t: Transfer, past: seq<Event>, arrivals: seq<Arrival>): seq<Event> {
    past + HandleAll(t.sessionId, arrivals)
  }

  lemma AfterLast(t: Transfer, past: seq<Event>, arrivals: seq<Arrival>)
    requires |arrivals| > 0
    ensures var a := arrivals[|arrivals| - 1];
            After(t, past, arrivals)
            == After(t, past, arrivals[..|arrivals| - 1]) + Handle(t.sessionId, a.now, a.datagram)
  {
  }

  lemma OnePiece(cfg: Config, t: Transfer, now: u32, d: seq<byte>, i: nat)
    requires t.Fits(cfg) && i in PieceOf(t, d)
    ensures PieceOf(t, d) == {i}
    ensures Handle(t.sessionId, now, d) == [Arrive(now, t.Piece(i))]
  {
    hide PieceDatagram, Handle;
    PieceArrives(cfg, t, now, i);
    forall j | j in PieceOf(t, d) ensures j == i {
      PieceArrives(cfg, t, now, j);
      assert t.Piece(i) == t.Piece(j);
    }
  }

  /** The messages of this id handed over so far. */
  ghost function HandedOver(u: Setup, t: Transfer, events: seq<Event>): seq<CompletedMessage>
    requires Fit(u)
  {
    OwnDeliveries(Deliveries(u, events), t.messageId)
  }

  lemma ForeignStep(u: Setup, t: Transfer, events: seq<Event>, more: seq<Event>, got: set<nat>)
    requires Fit(u) && t.Fits(u.cfg) && |more| <= 1
    requires forall e | e in more :: e.Arrive? && e.f.messageId != t.messageId
    requires Progress(u.cfg, t, Run(u, events), got)
    ensures Progress(u.cfg, t, Run(u, events + more), got)
    ensures HandedOver(u, t, events + more) == HandedOver(u, t, events)
  {
    if |more| == 0 {
      assert events + more == events;
    } else {
      var after := events + more;
      assert more[0] in more;
      assert Front(after) == events && Last(after) == more[0];
      OthersLeaveEntry(u, Run(u, events), more[0], t.messageId);
      if Completes(u, after) {
        DeliveredId(u, after);
        OwnDeliveriesLast(Deliveries(u, events), LastDelivery(u, after), t.messageId);
      }
      hide Step, Answer, LastDelivery, PartlyFilled;
    }
  }

  lemma OneMore(u: Setup, events: seq<Event>, e: Event)
    requires Fit(u)
    ensures Front(events + [e]) == events && Last(events + [e]) == e
    ensures Run(u, events + [e]) == Step(u, Run(u, events), e)
    ensures e.Arrive? ==> Answer(u, events + [e]) == AddStep(u.cfg, u.sort, e.now, Run(u, events), e.f).1
  {
  }

  lemma HandedOverSame(u: Setup, t: Transfer, events: seq<Event>, e: Event)
    requires Fit(u) && !Completes(u, events + [e])
    ensures HandedOver(u, t, events + [e]) == HandedOver(u, t, events)
  {
  }

  lemma HandedOverOne(u: Setup, t: Transfer, events: seq<Event>, e: Event, m: CompletedMessage)
    requires Fit(u) && Completes(u, events + [e]) && m.messageId == t.messageId
    requires Run(u, events + [e]).completed == Run(u, events).completed + [m]
    ensures HandedOver(u, t, events + [e]) == HandedOver(u, t, events) + [m]
  {
    var after := events + [e];
    assert Front(after) == events;
    DeliveredId(u, after);
    LastDeliveryIs(u, after, m);
    OwnDeliveriesLast(Deliveries(u, events), m, t.messageId);
  }

  lemma PieceEvent(u: Setup, t: Transfer, events: seq<Event>, now: u32, i: nat, got: set<nat>)
    requires Fit(u) && t.Fits(u.cfg) && i < t.Count()
    requires Progress(u.cfg, t, Run(u, events), got)
    ensures var after := events + [Arrive(now, t.Piece(i))];
            if i !in got && Full(t, got + {i}) then
              && Answer(u, after) == Completed
              && Run(u, after).completed == Run(u, events).completed + [CompletedMessage(t.messageId, t.payload)]
              && HandedOver(u, t, after) == HandedOver(u, t, events) + [CompletedMessage(t.messageId, t.payload)]
            else
              && Progress(u.cfg, t, Run(u, after), got + {i})
              && HandedOver(u, t, after) == HandedOver(u, t, events)
  {
    hide AddStep, PartlyFilled, Full, HandedOver, Run, Answer, Progress, Transfer.Piece;
    var e := Arrive(now, t.Piece(i));
    OneMore(u, events, e);
    PieceStep(u, t, Run(u, events), got, now, i);
    if i !in got && Full(t, got + {i}) {
      HandedOverOne(u, t, events, e, CompletedMessage(t.messageId, t.payload));
    } else {
      if i in got { assert got + {i} == got; }
      HandedOverSame(u, t, events, e);
    }
  }

  lemma AdmissibleFront(t: Transfer, arrivals: seq<Arrival>)
    requires t.m > 0 && |arrivals| > 0 && Admissible(t, arrivals)
    ensures Admissible(t, arrivals[..|arrivals| - 1])
  {
  }

  /** While some piece is missing, the entry holds exactly the pieces that came, and nothing is
      handed over under this id. */
  lemma {:induction false} NothingEarly(u: Setup, t: Transfer, past: seq<Event>, arrivals: seq<Arrival>)
    requires Fit(u) && t.Fits(u.cfg) && !Open(u, past, t.messageId)
    requires Admissible(t, arrivals) && !Full(t, Got(t, arrivals))
    ensures Progress(u.cfg, t, Run(u, After(t, past, arrivals)), Got(t, arrivals))
    ensures HandedOver(u, t, After(t, past, arrivals)) == HandedOver(u, t, past)
    decreases |arrivals|
  {
    hide PieceDatagram, Handle, HandedOver, PartlyFilled;
    if |arrivals| == 0 {
      assert past + [] == past;
    } else {
      var front, a := arrivals[..|arrivals| - 1], arrivals[|arrivals| - 1];
      AdmissibleFront(t, arrivals);
      NothingEarly(u, t, past, front);
      AfterLast(t, past, arrivals);
      hide Run, Progress, HandleAll, After;
      if i :| i in PieceOf(t, a.datagram) {
        OnePiece(u.cfg, t, a.now, a.datagram, i);
        if i in Got(t, front) { assert Got(t, front) + {i} == Got(t, front); }
        PieceEvent(u, t, After(t, past, front), a.now, i, Got(t, front));
      } else {
        assert Got(t, arrivals) == Got(t, front);
        HandledIsFragment(t, a);
        ForeignStep(u, t, After(t, past, front), Handle(t.sessionId, a.now, a.datagram), Got(t, front));
      }
    }
  }

  lemma HandledIsFragment(t: Transfer, a: Arrival)
    requires Foreign(t, a)
    ensures forall e | e in Handle(t.sessionId, a.now, a.datagram) :: e.Arrive? && e.f.messageId != t.messageId
  {
  }

  /** End to end: with duplicates, reordering, damage and other traffic in between, a message whose
      id is not already open at the receiver is completed by the very arrival that brings the last
      missing fragment, with exactly the sender's bytes, and by none before it. */
  lemma Delivered(u: Setup, t: Transfer, past: seq<Event>, arrivals: seq<Arrival>)
    requires Fit(u) && t.Fits(u.cfg) && !Open(u, past, t.messageId)
    requires Admissible(t, arrivals) && |arrivals| > 0
    requires Full(t, Got(t, arrivals)) && !Full(t, Got(t, arrivals[..|arrivals| - 1]))
    ensures var events, before := After(t, past, arrivals), After(t, past, arrivals[..|arrivals| - 1]);
            && Completes(u, events) && Front(events) == before
            && Run(u, events).completed == Run(u, before).completed + [CompletedMessage(t.messageId, t.payload)]
            && HandedOver(u, t, events) == HandedOver(u, t, past) + [CompletedMessage(t.messageId, t.payload)]
  {
    hide PieceDatagram, Handle, HandedOver, PartlyFilled;
    var front, a := arrivals[..|arrivals| - 1], arrivals[|arrivals| - 1];
    AdmissibleFront(t, arrivals);
    NothingEarly(u, t, past, front);
    AfterLast(t, past, arrivals);
    hide Run, Progress, HandleAll, After;
    var i :| i in PieceOf(t, a.datagram);
    OnePiece(u.cfg, t, a.now, a.datagram, i);
    PieceEvent(u, t, After(t, past, front), a.now, i, Got(t, front));
  }

  // ----- Replays -----

  /** How often the fragments have become full, and which have come since the last time. */
  ghost function Fillings(t: Transfer, arrivals: seq<Arrival>): (nat, set<nat>)
    requires t.m > 0
  {
    if |arrivals| == 0 then (0, {})
    else
      var (n, got) := Fillings(t, arrivals[..|arrivals| - 1]);
      var more := got + PieceOf(t, arrivals[|arrivals| - 1].datagram);
      if Full(t, more) then (n + 1, {}) else (n, more)
  }

  function Copies(m: CompletedMessage, n: nat): seq<CompletedMessage> {
    if n == 0 then [] else Copies(m, n - 1) + [m]
  }

  lemma NothingIsNotFull(cfg: Config, t: Transfer)
    requires t.Fits(cfg)
    ensures !Full(t, {})
  {
    CountFits(|t.payload|, t.m);
    var none: set<nat> := {};
    assert 0 !in none;
  }

  lemma {:induction false} NeverFull(cfg: Config, t: Transfer, arrivals: seq<Arrival>)
    requires t.Fits(cfg)
    ensures !Full(t, Fillings(t, arrivals).1)
  {
    NothingIsNotFull(cfg, t);
    hide PieceOf, Full;
    if |arrivals| > 0 { NeverFull(cfg, t, arrivals[..|arrivals| - 1]); }
  }

  lemma CompletionCloses(u: Setup, t: Transfer, events: seq<Event>, now: u32, i: nat)
    requires Fit(u) && t.Fits(u.cfg) && i < t.Count() && Answer(u, events + [Arrive(now, t.Piece(i))]) == Completed
    ensures Progress(u.cfg, t, Run(u, events + [Arrive(now, t.Piece(i))]), {})
  {
    OneMore(u, events, Arrive(now, t.Piece(i)));
    CompletedErases(u, Run(u, events), now, t.Piece(i));
    hide AddStep, Run, Answer;
  }

  /** One more arrival of a fragment. */
  lemma PieceFills(u: Setup, t: Transfer, events: seq<Event>, now: u32, i: nat, got: set<nat>)
    requires Fit(u) && t.Fits(u.cfg) && i < t.Count() && !Full(t, got)
    requires Progress(u.cfg, t, Run(u, events), got)
    ensures var after := events + [Arrive(now, t.Piece(i))];
            if Full(t, got + {i}) then
              && Progress(u.cfg, t, Run(u, after), {})
              && HandedOver(u, t, after) == HandedOver(u, t, events) + [CompletedMessage(t.messageId, t.payload)]
            else
              && Progress(u.cfg, t, Run(u, after), got + {i})
              && HandedOver(u, t, after) == HandedOver(u, t, events)
  {
    hide Run, Answer, Progress, HandedOver, Full, Transfer.Piece;
    if i in got { assert got + {i} == got; }
    PieceEvent(u, t, events, now, i, got);
    if Full(t, got + {i}) { CompletionCloses(u, t, events, now, i); }
  }

  lemma ArrivalFills(u: Setup, t: Transfer, events: seq<Event>, a: Arrival, got: set<nat>)
    requires Fit(u) && t.Fits(u.cfg) && !Full(t, got) && Progress(u.cfg, t, Run(u, events), got)
    requires PieceOf(t, a.datagram) != {} || Foreign(t, a)
    ensures var after := events + Handle(t.sessionId, a.now, a.datagram);
            var more := got + PieceOf(t, a.datagram);
            if Full(t, more) then
              && Progress(u.cfg, t, Run(u, after), {})
              && HandedOver(u, t, after) == HandedOver(u, t, events) + [CompletedMessage(t.messageId, t.payload)]
            else
              && Progress(u.cfg, t, Run(u, after), more)
              && HandedOver(u, t, after) == HandedOver(u, t, events)
  {
    hide PieceDatagram, Handle, HandedOver, Run, Progress, Full, Transfer.Piece, Foreign;
    if i :| i in PieceOf(t, a.datagram) {
      OnePiece(u.cfg, t, a.now, a.datagram, i);
      hide PieceOf;
      PieceFills(u, t, events, a.now, i, got);
    } else {
      assert got + PieceOf(t, a.datagram) == got;
      hide PieceOf;
      HandledIsFragment(t, a);
      ForeignStep(u, t, events, Handle(t.sessionId, a.now, a.datagram), got);
    }
  }

  /** A replay is delivered again: over every sequence of arrivals, the message is handed over
      exactly once for each time the fragments since the last time become full. */
  lemma {:induction false} DeliveredEachTime(u: Setup, t: Transfer, past: seq<Event>, arrivals: seq<Arrival>)
    requires Fit(u) && t.Fits(u.cfg) && !Open(u, past, t.messageId) && Admissible(t, arrivals)
    ensures var (n, got) := Fillings(t, arrivals);
            && Progress(u.cfg, t, Run(u, After(t, past, arrivals)), got)
            && HandedOver(u, t, After(t, past, arrivals))
               == HandedOver(u, t, past) + Copies(CompletedMessage(t.messageId, t.payload), n)
    decreases |arrivals|
  {
    hide PieceDatagram, Handle, HandedOver, PartlyFilled, Run, HandleAll, Full, PieceOf, Foreign;
    if |arrivals| == 0 {
      NothingYet(t, past);
    } else {
      hide Progress, After;
      var front, a := arrivals[..|arrivals| - 1], arrivals[|arrivals| - 1];
      AdmissibleFront(t, arrivals);
      DeliveredEachTime(u, t, past, front);
      AfterLast(t, past, arrivals);
      NeverFull(u.cfg, t, front);
      ArrivalFills(u, t, After(t, past, front), a, Fillings(t, front).1);
    }
  }

  lemma NothingYet(t: Transfer, past: seq<Event>)
    ensures After(t, past, []) == past
  {
    assert past + [] == past;
  }
}
